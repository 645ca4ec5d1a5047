/**
 * The read-eval-print state machine of `src/repl.rs`: a binding table of
 * locally-nameless terms plus a reduction limit, updated by `Repl::exec`, which
 * answers every command with a list of outcomes.
 */
module Repl {
  import opened Wrappers
  import opened Terms
  import opened Reduce
  import opened Normal
  import opened BetaReduce

  /** `Statement::Bind(name, term)`. */
  datatype Statement<T> = Bind(name: T, term: Term<T>)

  /** `Command`; its `Reduce` variant is `ReduceTerm` here, since `Reduce` names a module. */
  datatype Command<T> =
    | ReduceTerm(term: Term<T>)
    | Exec(statements: seq<Statement<T>>)
    | GetReduceLimit
    | SetReduceLimit(limit: nat)
    | Exit

  datatype CommandOutcome<T> =
    | TermReduced(reduced: ReducedTerm<T>)
    | ReduceLimitReached(count: nat)
    | BindAdded(name: T)
    | BindOverwritten(name: T)
    | ReduceLimitGot(limit: nat)
    | ReduceLimitSet(limit: nat)
    | Exit

  /** The reduction limit of a fresh REPL. */
  const DefaultReduceLimit: nat := 1000

  /** The locally-nameless form of a term with the table's definitions spliced in. */
  function Resolve<T(==)>(t: Term<T>, binds: Binds<T>): LnTerm<T>
  {
    Rebind(FromClassic(t), binds)
  }

  // ---------------------------------------------------------------------------
  // Executing a list of statements, as a function of the table before it
  // ---------------------------------------------------------------------------

  /** The table after executing `stmts` in order, each against the table left by the ones before. */
  function BindAll<T(==)>(binds: Binds<T>, stmts: seq<Statement<T>>): Binds<T>
  {
    if |stmts| == 0 then binds
    else
      var before := BindAll(binds, stmts[..|stmts| - 1]);
      var last := stmts[|stmts| - 1];
      before[last.name := Resolve(last.term, before)]
  }

  /** The outcome of one binding against a table. */
  function BindOutcome<T(==)>(binds: Binds<T>, s: Statement<T>): CommandOutcome<T>
  {
    if s.name in binds then BindOverwritten(s.name) else BindAdded(s.name)
  }

  /** The outcomes of executing `stmts` in order. */
  function BindOutcomes<T(==)>(binds: Binds<T>, stmts: seq<Statement<T>>): seq<CommandOutcome<T>>
  {
    if |stmts| == 0 then []
    else
      var prefix := stmts[..|stmts| - 1];
      BindOutcomes(binds, prefix) + [BindOutcome(BindAll(binds, prefix), stmts[|stmts| - 1])]
  }

  /** The names bound by a list of statements. */
  function BoundNames<T>(stmts: seq<Statement<T>>): (names: set<T>)
    ensures forall i :: 0 <= i < |stmts| ==> stmts[i].name in names
    ensures forall n :: n in names ==> exists i :: 0 <= i < |stmts| && stmts[i].name == n
  {
    set i | 0 <= i < |stmts| :: stmts[i].name
  }

  /** Exactly one outcome per statement. */
  lemma {:induction false} BindOutcomesLength<T>(binds: Binds<T>, stmts: seq<Statement<T>>)
    ensures |BindOutcomes(binds, stmts)| == |stmts|
    decreases |stmts|
  {
    if |stmts| > 0 {
      BindOutcomesLength(binds, stmts[..|stmts| - 1]);
    }
  }

  /** The outcomes of a prefix are a prefix of the outcomes. */
  lemma {:induction false} BindOutcomesPrefix<T>(binds: Binds<T>, stmts: seq<Statement<T>>, k: nat)
    requires k <= |stmts|
    ensures |BindOutcomes(binds, stmts)| == |stmts|
    ensures BindOutcomes(binds, stmts)[..k] == BindOutcomes(binds, stmts[..k])
    decreases |stmts|
  {
    BindOutcomesLength(binds, stmts);
    if k < |stmts| {
      var prefix := stmts[..|stmts| - 1];
      BindOutcomesPrefix(binds, prefix, k);
      assert prefix[..k] == stmts[..k];
      BindOutcomesLength(binds, prefix);
    } else {
      assert stmts[..k] == stmts;
    }
  }

  /**
   * The outcome of statement `i`, in order: `BindOverwritten` exactly when its name is
   * already in the table left by the statements before it, `BindAdded` otherwise.
   */
  lemma BindOutcomeAt<T>(binds: Binds<T>, stmts: seq<Statement<T>>, i: nat)
    requires i < |stmts|
    ensures |BindOutcomes(binds, stmts)| == |stmts|
    ensures BindOutcomes(binds, stmts)[i] ==
      if stmts[i].name in BindAll(binds, stmts[..i]) then BindOverwritten(stmts[i].name) else BindAdded(stmts[i].name)
  {
    BindOutcomesPrefix(binds, stmts, i + 1);
    assert stmts[..i + 1][..i] == stmts[..i];
    BindOutcomesLength(binds, stmts[..i]);
  }

  /** The names bound by a non-empty list are those of its prefix plus the last one. */
  lemma BoundNamesSnoc<T>(stmts: seq<Statement<T>>)
    requires |stmts| > 0
    ensures BoundNames(stmts) == BoundNames(stmts[..|stmts| - 1]) + {stmts[|stmts| - 1].name}
  {
    var prefix := stmts[..|stmts| - 1];
    forall n | n in BoundNames(stmts) ensures n in BoundNames(prefix) + {stmts[|stmts| - 1].name} {
      var i :| 0 <= i < |stmts| && stmts[i].name == n;
      if i < |stmts| - 1 {
        assert prefix[i].name == n;
      }
    }
    forall n | n in BoundNames(prefix) ensures n in BoundNames(stmts) {
      var i :| 0 <= i < |prefix| && prefix[i].name == n;
      assert stmts[i].name == n;
    }
  }

  /** The table gains exactly the bound names. */
  lemma {:induction false} BindAllKeys<T>(binds: Binds<T>, stmts: seq<Statement<T>>)
    ensures BindAll(binds, stmts).Keys == binds.Keys + BoundNames(stmts)
    decreases |stmts|
  {
    if |stmts| > 0 {
      BindAllKeys(binds, stmts[..|stmts| - 1]);
      BoundNamesSnoc(stmts);
    }
  }

  /** Names no statement binds keep their definitions. */
  lemma {:induction false} BindAllUntouched<T>(binds: Binds<T>, stmts: seq<Statement<T>>, n: T)
    requires n !in BoundNames(stmts)
    ensures n in BindAll(binds, stmts) <==> n in binds
    ensures n in binds ==> BindAll(binds, stmts)[n] == binds[n]
    decreases |stmts|
  {
    if |stmts| > 0 {
      BoundNamesSnoc(stmts);
      BindAllUntouched(binds, stmts[..|stmts| - 1], n);
    }
  }

  /**
   * After the statements, a name holds the resolved term of its LAST binding, resolved
   * against the table as the statements before that binding left it.
   */
  lemma {:induction false} BindAllLastBinding<T>(binds: Binds<T>, stmts: seq<Statement<T>>, i: nat)
    requires i < |stmts|
    requires forall j :: i < j < |stmts| ==> stmts[j].name != stmts[i].name
    ensures stmts[i].name in BindAll(binds, stmts)
    ensures BindAll(binds, stmts)[stmts[i].name] == Resolve(stmts[i].term, BindAll(binds, stmts[..i]))
    decreases |stmts|
  {
    if i < |stmts| - 1 {
      var prefix := stmts[..|stmts| - 1];
      BindAllLastBinding(binds, prefix, i);
      assert prefix[..i] == stmts[..i];
    } else {
      assert stmts[..|stmts| - 1] == stmts[..i];
    }
  }

  /** Binding keeps every definition free of dangling indices. */
  lemma {:induction false} BindAllClosed<T>(binds: Binds<T>, stmts: seq<Statement<T>>)
    requires ClosedBinds(binds)
    ensures ClosedBinds(BindAll(binds, stmts))
    decreases |stmts|
  {
    if |stmts| > 0 {
      var prefix := stmts[..|stmts| - 1];
      var last := stmts[|stmts| - 1];
      BindAllClosed(binds, prefix);
      ToLocalNamelessWellFormed(last.term, []);
      RebindWellFormed(FromClassic(last.term), BindAll(binds, prefix), 0);
    }
  }

  // ---------------------------------------------------------------------------
  // The REPL
  // ---------------------------------------------------------------------------

  class Repl<T(==)> {
    var binds: Binds<T>
    var reduceLimit: nat

    /** Every definition in the table has no dangling bound index. */
    ghost predicate Valid()
      reads this
    {
      ClosedBinds(binds)
    }

    /** `Repl::new` / `Default`: no bindings and a limit of 1000. */
    constructor()
      ensures Valid()
      ensures binds == map[] && reduceLimit == DefaultReduceLimit
    {
      binds := map[];
      reduceLimit := DefaultReduceLimit;
    }

    /**
     * `Repl::exec`. A reduction resolves the term against the table, reduces it in
     * normal order up to the limit and reports the result, followed by a warning when
     * the limit was reached. A list of statements is executed in order. The limit can
     * be read and set.
     */
    method Exec(command: Command<T>) returns (outcomes: seq<CommandOutcome<T>>)
      requires Valid()
      modifies this
      ensures Valid()
      ensures command.ReduceTerm? ==>
        && binds == old(binds) && reduceLimit == old(reduceLimit)
        && 1 <= |outcomes| <= 2 && outcomes[0].TermReduced?
        && var start := Resolve(command.term, binds);
           var count := outcomes[0].reduced.count;
           && LimitOutcome(NormalStep, start, reduceLimit, count)
           && TryIntoClassic(Iterate(NormalStep, start, count)) == Ok(outcomes[0].reduced.term)
           && (|outcomes| == 2 <==> count >= reduceLimit)
           && (|outcomes| == 2 ==> outcomes[1] == ReduceLimitReached(count))
      ensures command.Exec? ==>
        && binds == BindAll(old(binds), command.statements)
        && reduceLimit == old(reduceLimit)
        && outcomes == BindOutcomes(old(binds), command.statements)
      ensures command.GetReduceLimit? ==>
        binds == old(binds) && reduceLimit == old(reduceLimit) && outcomes == [ReduceLimitGot(reduceLimit)]
      ensures command.SetReduceLimit? ==>
        binds == old(binds) && reduceLimit == command.limit && outcomes == [ReduceLimitSet(command.limit)]
      ensures command.Exit? ==>
        binds == old(binds) && reduceLimit == old(reduceLimit) && outcomes == [CommandOutcome.Exit]
    {
      match command
      case ReduceTerm(term) =>
        outcomes := ReduceOutcomes(term);
      case Exec(statements) =>
        outcomes := [];
        var i := 0;
        while i < |statements|
          invariant 0 <= i <= |statements|
          invariant binds == BindAll(old(binds), statements[..i])
          invariant outcomes == BindOutcomes(old(binds), statements[..i])
          invariant reduceLimit == old(reduceLimit)
          invariant Valid()
        {
          var outcome := ExecStatement(statements[i]);
          outcomes := outcomes + [outcome];
          assert statements[..i + 1][..i] == statements[..i];
          i := i + 1;
        }
        assert statements[..i] == statements;
      case GetReduceLimit =>
        outcomes := [ReduceLimitGot(reduceLimit)];
      case SetReduceLimit(limit) =>
        reduceLimit := limit;
        outcomes := [ReduceLimitSet(limit)];
      case Exit =>
        outcomes := [CommandOutcome.Exit];
    }

    /**
     * The `Reduce` arm: resolve, reduce in normal order up to the limit, convert back
     * (which cannot fail on a closed table) and warn when the limit was reached.
     */
    method ReduceOutcomes(term: Term<T>) returns (outcomes: seq<CommandOutcome<T>>)
      requires Valid()
      ensures 1 <= |outcomes| <= 2 && outcomes[0].TermReduced?
      ensures var start := Resolve(term, binds);
        var count := outcomes[0].reduced.count;
        && LimitOutcome(NormalStep, start, reduceLimit, count)
        && TryIntoClassic(Iterate(NormalStep, start, count)) == Ok(outcomes[0].reduced.term)
        && (|outcomes| == 2 <==> count >= reduceLimit)
        && (|outcomes| == 2 ==> outcomes[1] == ReduceLimitReached(count))
    {
      var localNameless := Resolve(term, binds);
      ToLocalNamelessWellFormed(term, []);
      RebindWellFormed(FromClassic(term), binds, 0);
      var count, result := BetaReduceLimit(NormalStep, localNameless, reduceLimit);
      IterateWellFormed(localNameless, count, 0);
      ToClassicSucceedsIffWellFormed(Iterate(NormalStep, localNameless, count), []);
      outcomes := [TermReduced(ReducedTerm(count, TryIntoClassic(result).value))];
      if count >= reduceLimit {
        outcomes := outcomes + [ReduceLimitReached(count)];
      }
    }

    /**
     * One statement of an `Exec`: resolve the term against the current table, then
     * insert it, reporting whether the name was new or overwritten.
     */
    method ExecStatement(statement: Statement<T>) returns (outcome: CommandOutcome<T>)
      requires Valid()
      modifies this
      ensures Valid()
      ensures binds == old(binds)[statement.name := Resolve(statement.term, old(binds))]
      ensures reduceLimit == old(reduceLimit)
      ensures outcome == BindOutcome(old(binds), statement)
    {
      var localNameless := Resolve(statement.term, binds);
      ToLocalNamelessWellFormed(statement.term, []);
      RebindWellFormed(FromClassic(statement.term), binds, 0);
      outcome := if statement.name in binds then BindOverwritten(statement.name) else BindAdded(statement.name);
      binds := binds[statement.name := localNameless];
    }
  }

  /**
   * The outcomes list is non-empty for every command except an empty statement list,
   * which the command parser never produces.
   */
  lemma OutcomesNonEmpty<T>(binds: Binds<T>, stmts: seq<Statement<T>>)
    ensures |BindOutcomes(binds, stmts)| >= 1 <==> |stmts| >= 1
  {
    BindOutcomesLength(binds, stmts);
  }
}
