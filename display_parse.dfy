/**
 * A reference reader for the text `Display for Term` produces. It is not the
 * repository's parser (that one is built from parser combinators and is not part
 * of this model); it exists to show that the minimal-parenthesis layout loses
 * nothing: reading back the displayed text of a term gives the term's names and
 * shape again.
 *
 * Grammar of the displayed text:
 *   term := "λ" name ". " term | atom (" " atom)*
 *   atom := name | "(" term ")"
 */
module DisplayParse {
  import opened Wrappers
  import opened Terms

  /** A character that can occur in a name: none of the layout characters. */
  predicate IsNameChar(c: char)
  {
    c != ' ' && c != '(' && c != ')' && c != '.' && c != 'λ'
  }

  predicate ValidName(x: string)
  {
    |x| > 0 && forall k :: 0 <= k < |x| ==> IsNameChar(x[k])
  }

  /** Every variable and parameter name of the term is a valid name. */
  predicate ValidNames(t: Term<string>)
  {
    match t
    case Var(x) => ValidName(x)
    case Abs(p, b) => ValidName(p) && ValidNames(b)
    case App(f, a) => ValidNames(f) && ValidNames(a)
  }

  /** The length of the longest prefix made of name characters. */
  function NameLen(s: string): (n: nat)
    ensures n <= |s|
    ensures forall k :: 0 <= k < n ==> IsNameChar(s[k])
    ensures n < |s| ==> !IsNameChar(s[n])
  {
    if |s| > 0 && IsNameChar(s[0]) then 1 + NameLen(s[1..]) else 0
  }

  /** A term read from the front of a string, and what is left. */
  datatype Parsed = Parsed(term: Term<string>, rest: string)

  function ParseTerm(s: string): (r: Option<Parsed>)
    ensures r.Some? ==> |r.value.rest| < |s|
    decreases |s|, 2
  {
    if |s| > 0 && s[0] == 'λ' then
      var n := NameLen(s[1..]);
      var after := s[1 + n..];
      if n > 0 && |after| >= 2 && after[..2] == ". " then
        match ParseTerm(after[2..])
        case None => None
        case Some(body) => Some(Parsed(Abs(s[1..1 + n], body.term), body.rest))
      else None
    else ParseApp(s)
  }

  function ParseApp(s: string): (r: Option<Parsed>)
    ensures r.Some? ==> |r.value.rest| < |s|
    decreases |s|, 1
  {
    match ParseAtom(s)
    case None => None
    case Some(head) => AppLoop(head.term, head.rest)
  }

  /** Juxtaposition associates to the left: each further atom applies the term so far. */
  function AppLoop(acc: Term<string>, s: string): (r: Option<Parsed>)
    ensures r.Some? ==> |r.value.rest| <= |s|
    decreases |s|, 0
  {
    if |s| >= 2 && s[0] == ' ' && (s[1] == '(' || IsNameChar(s[1])) then
      match ParseAtom(s[1..])
      case None => None
      case Some(arg) => AppLoop(App(acc, arg.term), arg.rest)
    else Some(Parsed(acc, s))
  }

  function ParseAtom(s: string): (r: Option<Parsed>)
    ensures r.Some? ==> |r.value.rest| < |s|
    decreases |s|, 0
  {
    if |s| > 0 && s[0] == '(' then
      match ParseTerm(s[1..])
      case None => None
      case Some(inner) =>
        if |inner.rest| > 0 && inner.rest[0] == ')' then Some(Parsed(inner.term, inner.rest[1..])) else None
    else
      var n := NameLen(s);
      if n > 0 then Some(Parsed(Var(s[..n]), s[n..])) else None
  }

  // ---------------------------------------------------------------------------
  // Reading back what Display wrote
  // ---------------------------------------------------------------------------

  /** A valid name followed by a non-name character is read exactly. */
  lemma {:induction false} NameLenOfName(x: string, rest: string)
    requires ValidName(x) && (|rest| == 0 || !IsNameChar(rest[0]))
    ensures NameLen(x + rest) == |x|
    decreases |x|
  {
    if |x| > 1 {
      assert (x + rest)[1..] == x[1..] + rest;
      NameLenOfName(x[1..], rest);
    } else {
      assert (x + rest)[1..] == rest;
    }
  }

  /** Whatever may follow a complete term: the end, or a closing parenthesis. */
  predicate EndsTerm(rest: string)
  {
    |rest| == 0 || rest[0] == ')'
  }

  /** Whatever may follow an atom: additionally a space before the next argument. */
  predicate EndsAtom(rest: string)
  {
    |rest| == 0 || rest[0] == ')' || rest[0] == ' '
  }

  // One reading step at a time.

  lemma ReadAbs(name: string, body: string)
    requires ValidName(name)
    ensures ParseTerm("λ" + name + ". " + body) ==
      match ParseTerm(body)
      case None => None
      case Some(b) => Some(Parsed(Abs(name, b.term), b.rest))
  {
    var s := "λ" + name + ". " + body;
    assert s[1..] == name + (". " + body);
    NameLenOfName(name, ". " + body);
    assert s[1 + |name|..] == ". " + body;
    assert s[1..1 + |name|] == name;
    assert (". " + body)[2..] == body;
  }

  lemma ReadName(x: string, rest: string)
    requires ValidName(x) && EndsAtom(rest)
    ensures ParseAtom(x + rest) == Some(Parsed(Var(x), rest))
  {
    NameLenOfName(x, rest);
    assert (x + rest)[..|x|] == x;
    assert (x + rest)[|x|..] == rest;
  }

  lemma ReadParens(inner: string, t: Term<string>, rest: string)
    requires ParseTerm(inner + ")" + rest) == Some(Parsed(t, ")" + rest))
    ensures ParseAtom("(" + inner + ")" + rest) == Some(Parsed(t, rest))
  {
    assert ("(" + inner + ")" + rest)[1..] == inner + ")" + rest;
    assert (")" + rest)[1..] == rest;
  }

  lemma ReadNotAbs(s: string)
    requires |s| > 0 && s[0] != 'λ'
    ensures ParseTerm(s) == ParseApp(s)
  {
  }

  lemma ReadArgument(acc: Term<string>, argText: string, a: Term<string>, rest: string)
    requires |argText| > 0 && (argText[0] == '(' || IsNameChar(argText[0]))
    requires ParseAtom(argText + rest) == Some(Parsed(a, rest))
    ensures AppLoop(acc, " " + argText + rest) == AppLoop(App(acc, a), rest)
  {
    var s := " " + argText + rest;
    assert s[0] == ' ' && s[1] == argText[0];
    assert s[1..] == argText + rest;
  }

  lemma ReadEnd(acc: Term<string>, rest: string)
    requires EndsTerm(rest)
    ensures AppLoop(acc, rest) == Some(Parsed(acc, rest))
  {
  }

  lemma {:induction false} TermRoundTrip(t: IdentTerm<string>, rest: string)
    requires ValidNames(Erase(t)) && EndsTerm(rest)
    ensures ParseTerm(Display(t) + rest) == Some(Parsed(Erase(t), rest))
    decreases t, 1
  {
    match t
    case Abs(p, b) =>
      assert Display(t) + rest == "λ" + p.name + ". " + (Display(b) + rest);
      ReadAbs(p.name, Display(b) + rest);
      TermRoundTrip(b, rest);
    case Var(i) =>
      ReadNotAbs(Display(t) + rest);
      SpineRoundTrip(t, rest);
      ReadEnd(Erase(t), rest);
    case App(f, a) =>
      DisplayStartsWith(t);
      ReadNotAbs(Display(t) + rest);
      SpineRoundTrip(t, rest);
      ReadEnd(Erase(t), rest);
  }

  /** The displayed text of a term other than an abstraction starts with an atom. */
  lemma {:induction false} DisplayStartsWith(t: IdentTerm<string>)
    requires !t.Abs? && ValidNames(Erase(t))
    ensures |Display(t)| > 0 && (Display(t)[0] == '(' || IsNameChar(Display(t)[0]))
  {
    match t
    case Var(_) =>
    case App(f, a) =>
      if !f.Abs? {
        DisplayStartsWith(f);
      }
  }

  /** An application's text is read atom by atom, leaving the loop to continue after it. */
  lemma {:induction false} SpineRoundTrip(t: IdentTerm<string>, rest: string)
    requires !t.Abs? && ValidNames(Erase(t)) && EndsAtom(rest)
    ensures ParseApp(Display(t) + rest) == AppLoop(Erase(t), rest)
    decreases t, 0
  {
    match t
    case Var(i) =>
      ReadName(i.name, rest);
    case App(f, a) =>
      var tail := " " + ArgText(a) + rest;
      assert Display(t) + rest == FuncText(f) + tail;
      FuncRoundTrip(f, tail);
      AtomRoundTrip(a, rest);
      ArgStartsWith(a);
      ReadArgument(Erase(f), ArgText(a), Erase(a), rest);
  }

  /** A function's text is read as the start of an application. */
  lemma {:induction false} FuncRoundTrip(f: IdentTerm<string>, rest: string)
    requires ValidNames(Erase(f)) && EndsAtom(rest)
    ensures ParseApp(FuncText(f) + rest) == AppLoop(Erase(f), rest)
    decreases f, 2
  {
    if f.Abs? {
      TermRoundTrip(f, ")" + rest);
      assert Display(f) + (")" + rest) == Display(f) + ")" + rest;
      ReadParens(Display(f), Erase(f), rest);
    } else {
      SpineRoundTrip(f, rest);
    }
  }

  lemma ArgStartsWith(a: IdentTerm<string>)
    requires ValidNames(Erase(a))
    ensures |ArgText(a)| > 0 && (ArgText(a)[0] == '(' || IsNameChar(ArgText(a)[0]))
  {
  }

  /** An argument's text is read back as one atom. */
  lemma {:induction false} AtomRoundTrip(a: IdentTerm<string>, rest: string)
    requires ValidNames(Erase(a)) && EndsAtom(rest)
    ensures ParseAtom(ArgText(a) + rest) == Some(Parsed(Erase(a), rest))
    decreases a, 2
  {
    if a.Abs? || a.App? {
      TermRoundTrip(a, ")" + rest);
      assert Display(a) + (")" + rest) == Display(a) + ")" + rest;
      ReadParens(Display(a), Erase(a), rest);
    } else {
      ReadName(a.v.name, rest);
    }
  }

  /** Reading the displayed text of a term gives back its names and shape. */
  lemma DisplayRoundTrip(t: IdentTerm<string>)
    requires ValidNames(Erase(t))
    ensures ParseTerm(Display(t)) == Some(Parsed(Erase(t), ""))
  {
    TermRoundTrip(t, "");
    assert Display(t) + "" == Display(t);
  }

  /** So the layout is unambiguous: terms that display alike have the same names and shape. */
  lemma DisplayInjective(t: IdentTerm<string>, u: IdentTerm<string>)
    requires ValidNames(Erase(t)) && ValidNames(Erase(u))
    requires Display(t) == Display(u)
    ensures Erase(t) == Erase(u)
  {
    DisplayRoundTrip(t);
    DisplayRoundTrip(u);
  }
}
