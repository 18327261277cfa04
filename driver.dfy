/** The run: collect the branches, then ask about each one in order, skip the
    checked-out branch, delete what the user chose to delete, and stop at the
    first Quit, Undo or error. */
module Driver {
  import opened Cli
  import opened Terminal
  import opened Branches
  import opened Prompt
  import opened Seqs

  /** Whether the repository accepts deleting branch `name`: it must still
      exist and must not be one whose deletion the repository refuses. */
  predicate Deletable(name: string, present: set<string>, undeletable: set<string>)
  {
    name in present && name !in undeletable
  }

  /** The local branches of the repository, as far as deletion is concerned:
      the names that exist, the names it refuses to delete, and every delete
      call made so far. */
  class Repository {
    var present: set<string>
    var calls: seq<string>
    const undeletable: set<string>

    constructor (present: set<string>, undeletable: set<string>)
      ensures this.present == present && this.undeletable == undeletable && calls == []
    {
      this.present := present;
      this.undeletable := undeletable;
      calls := [];
    }

    /** Deletes branch `name`; the call is logged whether or not it succeeds. */
    method DeleteBranch(name: string) returns (r: Result<()>)
      modifies this
      ensures calls == old(calls) + [name]
      ensures r.Ok? <==> Deletable(name, old(present), undeletable)
      ensures present == if r.Ok? then old(present) - {name} else old(present)
      ensures r.Err? ==> r.error == Git
    {
      calls := calls + [name];
      if Deletable(name, present, undeletable) {
        present := present - {name};
        r := Ok(());
      } else {
        r := Err(Git);
      }
    }
  }

  /** Everything a run changes: the unread input, the output, the existing
      branches and the delete calls. */
  datatype Session = Session(
    input: seq<StdinItem>,
    output: seq<Line>,
    present: set<string>,
    calls: seq<string>)

  /** What happened to one branch: skipped as the checked-out branch, or
      asked about, with the reply. */
  datatype Verdict = Skipped | Answered(reply: Reply)

  /** How a run ends. Undo is not implemented and panics. OutOfInput is an
      artifact of the model's finite input. */
  datatype Exit = Completed | Errored(error: CliError) | Panicked | OutOfInput

  /** The end of a run, its final session, and one verdict per branch it
      reached, in list order. */
  datatype Report = Report(exit: Exit, session: Session, verdicts: seq<Verdict>)

  /** A verdict after which the run goes on to the next branch. */
  predicate Continues(v: Verdict)
  {
    v == Skipped || v == Answered(Chosen(Keep)) || v == Answered(Chosen(Delete))
  }

  predicate AllContinue(vs: seq<Verdict>)
  {
    forall v :: v in vs ==> Continues(v)
  }

  /** How the run ends after a verdict that stops it. */
  function Ending(v: Verdict): Exit
    requires !Continues(v)
  {
    match v
    case Answered(Chosen(Quit)) => Completed
    case Answered(Chosen(Undo)) => Panicked
    case Answered(Failed(e)) => Errored(e)
    case Answered(InputExhausted) => OutOfInput
  }

  /** The process exit status: 0 on success, 1 after an error, and the
      status of a panic after Undo. */
  function ExitStatus(x: Exit): (code: int)
    requires !x.OutOfInput?
    ensures code == 0 <==> x.Completed?
    ensures x.Errored? ==> code == 1
  {
    match x
    case Completed => 0
    case Errored(_) => 1
    case Panicked => 101
  }

  function Continue(v: Verdict, r: Report): Report
  {
    r.(verdicts := [v] + r.verdicts)
  }

  /** One branch of the loop: its verdict, whether the loop goes on, how the
      run ends if it does not, and the session afterwards. */
  datatype Visit = Visit(verdict: Verdict, goesOn: bool, exit: Exit, session: Session)

  /** One pass of the branch loop over branch `b`: the checked-out branch is
      skipped with a message; any other branch is asked about; Keep goes on
      unchanged, Delete calls the repository and, when that succeeds, writes
      the confirmation and goes on; everything else ends the run. */
  function Step(b: Branch, s: Session, u: set<string>): (x: Visit)
    ensures x.verdict == Skipped <==> b.isHead
    ensures b.isHead ==> x.session.input == s.input
    ensures !b.isHead ==>
      x.verdict == Answered(Resolve(s.input, b).reply) && x.session.input == s.input[Resolve(s.input, b).consumed..]
    ensures x.goesOn ==> Continues(x.verdict)
    ensures !Continues(x.verdict) ==> !x.goesOn && x.exit == Ending(x.verdict)
    ensures Continues(x.verdict) && !x.goesOn ==>
      x.verdict == Answered(Chosen(Delete)) && x.exit == Errored(Git) && !Deletable(b.name, s.present, u)
    ensures x.verdict == Answered(Chosen(Delete)) ==> (x.goesOn <==> Deletable(b.name, s.present, u))
    ensures x.session.calls == s.calls + (if x.verdict == Answered(Chosen(Delete)) then [b.name] else [])
    ensures x.session.present == if x.goesOn && x.verdict == Answered(Chosen(Delete)) then s.present - {b.name} else s.present
  {
    if b.isHead then
      Visit(Skipped, true, Completed, s.(output := s.output + [HeadSkipped]))
    else
      var c := Resolve(s.input, b);
      var asked := s.(input := s.input[c.consumed..], output := s.output + c.output);
      var v := Answered(c.reply);
      if c.reply == Chosen(Keep) then
        Visit(v, true, Completed, asked)
      else if c.reply == Chosen(Delete) then
        var called := asked.(calls := asked.calls + [b.name]);
        if Deletable(b.name, asked.present, u) then
          Visit(v, true, Completed, called.(present := called.present - {b.name},
                                            output := called.output + [Deleted(b.name, b.id)]))
        else
          Visit(v, false, Errored(Git), called)
      else
        Visit(v, false, Ending(v), asked)
  }

  /** A visit consumes input only from the front and only appends output;
      the only prompt it writes is the one for `b`, and none for the
      checked-out branch. */
  lemma StepStreams(b: Branch, s: Session, u: set<string>)
    ensures var x := Step(b, s, u);
      && |x.session.input| <= |s.input|
      && x.session.input == s.input[|s.input| - |x.session.input|..]
      && s.output <= x.session.output
      && (forall l :: l in x.session.output[|s.output|..] && l.Prompt? ==> !b.isHead && l == PromptOf(b))
  {
    if b.isHead {
      Appended(s.output, [HeadSkipped]);
    } else {
      var c := Resolve(s.input, b);
      ResolveOnlyPrompts(s.input, b);
      if Step(b, s, u).session.output == s.output + c.output {
        Appended(s.output, c.output);
      } else {
        Associative(s.output, c.output, [Deleted(b.name, b.id)]);
        Appended(s.output, c.output + [Deleted(b.name, b.id)]);
      }
    }
  }

  /** What a visit writes: the skip message alone for the checked-out
      branch, the question alone on Keep and whenever the run stops there,
      the question and then the restore hint after a deletion. */
  lemma StepWrites(b: Branch, s: Session, u: set<string>)
    ensures var x := Step(b, s, u);
      && (b.isHead ==> x.session.output == s.output + [HeadSkipped] && x.session.input == s.input)
      && (x.verdict == Answered(Chosen(Keep)) ==> x.session.output == s.output + Resolve(s.input, b).output)
      && (x.goesOn && x.verdict == Answered(Chosen(Delete)) ==>
            x.session.output == s.output + Resolve(s.input, b).output + [Deleted(b.name, b.id)])
      && (!x.goesOn ==> x.session.output == s.output + Resolve(s.input, b).output)
  {
  }

  /** The branch loop over the candidates `bs`, in list order. */
  function Walk(bs: seq<Branch>, s: Session, u: set<string>): (r: Report)
    ensures |r.verdicts| <= |bs|
    ensures bs != [] ==> r.verdicts != []
    decreases |bs|
  {
    if bs == [] then Report(Completed, s, [])
    else
      var x := Step(bs[0], s, u);
      if x.goesOn then Continue(x.verdict, Walk(bs[1..], x.session, u))
      else Report(x.exit, x.session, [x.verdict])
  }

  /** The whole review: one message and success when there is nothing to
      review, the branch loop otherwise. */
  function Review(bs: seq<Branch>, s: Session, undeletable: set<string>): (r: Report)
    ensures bs == [] ==>
      && r.exit == Completed && r.verdicts == []
      && r.session.output == s.output + [NoBranches]
      && r.session.input == s.input && r.session.present == s.present && r.session.calls == s.calls
  {
    if bs == [] then Report(Completed, s.(output := s.output + [NoBranches]), [])
    else Walk(bs, s, undeletable)
  }

  /** The run reaches a prefix of the list, one verdict per branch; the
      checked-out branch, and only it, is skipped without a question; every
      verdict before the last lets the run go on. */
  lemma {:induction false} WalkVerdicts(bs: seq<Branch>, s: Session, u: set<string>)
    ensures var r := Walk(bs, s, u);
      && |r.verdicts| <= |bs|
      && (forall i :: 0 <= i < |r.verdicts| ==> (r.verdicts[i] == Skipped <==> bs[i].isHead))
      && (forall i :: 0 <= i < |r.verdicts| - 1 ==> Continues(r.verdicts[i]))
    decreases |bs|
  {
    if bs != [] {
      var x := Step(bs[0], s, u);
      if x.goesOn {
        WalkVerdicts(bs[1..], x.session, u);
        ConsVerdicts(bs, x.verdict, Walk(bs[1..], x.session, u).verdicts);
      }
    }
  }

  /** The verdict facts of WalkVerdicts carry over from the rest of the list
      to the whole when one continuing verdict is put in front. */
  lemma ConsVerdicts(bs: seq<Branch>, v: Verdict, t: seq<Verdict>)
    requires bs != [] && |t| <= |bs| - 1 && Continues(v)
    requires v == Skipped <==> bs[0].isHead
    requires forall i :: 0 <= i < |t| ==> (t[i] == Skipped <==> bs[1..][i].isHead)
    requires forall i :: 0 <= i < |t| - 1 ==> Continues(t[i])
    ensures forall i :: 0 <= i < |[v] + t| ==> (([v] + t)[i] == Skipped <==> bs[i].isHead)
    ensures forall i :: 0 <= i < |[v] + t| - 1 ==> Continues(([v] + t)[i])
  {
    forall i | 1 <= i < |[v] + t|
      ensures ([v] + t)[i] == t[i - 1] && bs[i] == bs[1..][i - 1]
    {
    }
  }

  /** How the run ends: a verdict that stops the run ends it as that verdict
      says (Quit with success, Undo with a panic, an error with that error);
      when every verdict lets the run go on, it either reached the end of the
      list with success, or a delete call was refused and it ends with that
      repository error. */
  lemma {:induction false} WalkExit(bs: seq<Branch>, s: Session, u: set<string>)
    ensures var r := Walk(bs, s, u);
      && |r.verdicts| <= |bs|
      && (r.verdicts != [] && !Continues(Last(r.verdicts)) ==> r.exit == Ending(Last(r.verdicts)))
      && (AllContinue(r.verdicts) && r.exit == Completed ==> |r.verdicts| == |bs|)
      && (AllContinue(r.verdicts) && r.exit != Completed ==>
            && r.exit == Errored(Git)
            && r.verdicts != [] && Last(r.verdicts) == Answered(Chosen(Delete))
            && !Deletable(bs[|r.verdicts| - 1].name, r.session.present, u))
      && (r.verdicts != [] && Last(r.verdicts) == Answered(Chosen(Delete)) ==>
            if |r.verdicts| < |bs| then r.exit == Errored(Git)
            else r.exit == Completed || r.exit == Errored(Git))
    decreases |bs|
  {
    WalkVerdicts(bs, s, u);
    if bs != [] {
      var x := Step(bs[0], s, u);
      if x.goesOn {
        WalkExit(bs[1..], x.session, u);
        var r, t := Walk(bs, s, u), Walk(bs[1..], x.session, u);
        if t.verdicts != [] {
          assert Last(r.verdicts) == Last(t.verdicts);
          assert bs[|r.verdicts| - 1] == bs[1..][|t.verdicts| - 1];
        }
        assert AllContinue(r.verdicts) ==> AllContinue(t.verdicts) by {
          assert forall v :: v in t.verdicts ==> v in r.verdicts;
        }
      }
    }
  }

  /** A delete call the repository refuses ends the run at that branch with
      a repository error and status 1. */
  lemma WalkRefusal(bs: seq<Branch>, s: Session, u: set<string>)
    requires bs != [] && !bs[0].isHead
    requires Resolve(s.input, bs[0]).reply == Chosen(Delete) && !Deletable(bs[0].name, s.present, u)
    ensures Walk(bs, s, u).verdicts == [Answered(Chosen(Delete))]
    ensures Walk(bs, s, u).exit == Errored(Git) && ExitStatus(Walk(bs, s, u).exit) == 1
    ensures Walk(bs, s, u).session.calls == s.calls + [bs[0].name] && Walk(bs, s, u).session.present == s.present
  {
  }

  /** The names of the branches whose verdict is Delete, in list order. */
  function DeletedNames(bs: seq<Branch>, vs: seq<Verdict>): seq<string>
  {
    if vs == [] || bs == [] then []
    else (if vs[0] == Answered(Chosen(Delete)) then [bs[0].name] else []) + DeletedNames(bs[1..], vs[1..])
  }

  /** Delete is called exactly for the branches the user chose to delete, in
      list order, once each; Keep, Quit, skipped branches and errors call
      nothing. */
  lemma {:induction false} WalkDeletes(bs: seq<Branch>, s: Session, u: set<string>)
    ensures Walk(bs, s, u).session.calls == s.calls + DeletedNames(bs, Walk(bs, s, u).verdicts)
    decreases |bs|
  {
    if bs != [] {
      var x := Step(bs[0], s, u);
      var mine := if x.verdict == Answered(Chosen(Delete)) then [bs[0].name] else [];
      if x.goesOn {
        var t := Walk(bs[1..], x.session, u);
        WalkDeletes(bs[1..], x.session, u);
        Associative(s.calls, mine, DeletedNames(bs[1..], t.verdicts));
      } else {
        assert DeletedNames(bs[1..], []) == [];
        assert mine + [] == mine;
      }
    }
  }

  /** The names of the branches in `bs` that are not checked out. */
  function AskedNames(bs: seq<Branch>): set<string>
  {
    set b | b in bs && !b.isHead :: b.name
  }

  lemma {:induction false} DeletedNamesAsked(bs: seq<Branch>, vs: seq<Verdict>)
    requires |vs| <= |bs|
    requires forall i :: 0 <= i < |vs| ==> (vs[i] == Skipped <==> bs[i].isHead)
    ensures forall n :: n in DeletedNames(bs, vs) ==> n in AskedNames(bs[..|vs|])
    decreases |vs|
  {
    if vs != [] {
      assert forall i :: 0 <= i < |vs[1..]| ==> vs[1..][i] == vs[i + 1] && bs[1..][i] == bs[i + 1];
      DeletedNamesAsked(bs[1..], vs[1..]);
      assert bs[0] in bs[..|vs|];
      assert forall b :: b in bs[1..][..|vs| - 1] ==> b in bs[..|vs|];
    }
  }

  /** The run only adds delete calls, and each one names a branch it reached
      that is not checked out and that it asked about. (That this spares the
      checked-out branch rests on branch names being unique, as they are in
      a git repository.) */
  lemma WalkSparesHead(bs: seq<Branch>, s: Session, u: set<string>)
    ensures var r := Walk(bs, s, u);
      && |r.verdicts| <= |bs|
      && s.calls <= r.session.calls
      && (forall n :: n in r.session.calls[|s.calls|..] ==> n in AskedNames(bs[..|r.verdicts|]))
  {
    WalkVerdicts(bs, s, u);
    WalkDeletes(bs, s, u);
    var r := Walk(bs, s, u);
    DeletedNamesAsked(bs, r.verdicts);
    Appended(s.calls, DeletedNames(bs, r.verdicts));
  }

  /** Only branches Delete was called for disappear, and after a run that did
      not end on a refused deletion every one of them is gone. */
  lemma {:induction false} WalkRepository(bs: seq<Branch>, s: Session, u: set<string>)
    ensures var r := Walk(bs, s, u);
      && r.session.present <= s.present
      && (forall n :: n in s.present && n !in DeletedNames(bs, r.verdicts) ==> n in r.session.present)
      && (r.exit != Errored(Git) ==> forall n :: n in DeletedNames(bs, r.verdicts) ==> n !in r.session.present)
    decreases |bs|
  {
    if bs != [] {
      var x := Step(bs[0], s, u);
      if x.goesOn {
        WalkRepository(bs[1..], x.session, u);
      } else {
        assert DeletedNames(bs[1..], []) == [];
      }
    }
  }

  /** The run stopped before running out of branches: on Quit, Undo, an
      error, or the end of the input. */
  predicate Halted(r: Report)
  {
    !(r.exit == Completed && AllContinue(r.verdicts))
  }

  /** Once the run stops at a branch, the branches after it play no part:
      any list that agrees up to that branch gives the same run. */
  lemma {:induction false} WalkIgnoresRest(bs: seq<Branch>, s: Session, u: set<string>, rest: seq<Branch>)
    requires Halted(Walk(bs, s, u))
    ensures var r := Walk(bs, s, u);
      0 < |r.verdicts| <= |bs| && Walk(bs[..|r.verdicts|] + rest, s, u) == r
    decreases |bs|
  {
    WalkVerdicts(bs, s, u);
    var r := Walk(bs, s, u);
    var k := |r.verdicts|;
    ConsSlice(bs, k, rest);
    var x := Step(bs[0], s, u);
    if x.goesOn {
      var t := Walk(bs[1..], x.session, u);
      assert AllContinue(t.verdicts) ==> AllContinue(r.verdicts);
      WalkIgnoresRest(bs[1..], x.session, u, rest);
    }
  }

  /** The prompts of the branches in `bs` that are not checked out. */
  function PromptsOf(bs: seq<Branch>): set<Line>
  {
    set b | b in bs && !b.isHead :: PromptOf(b)
  }

  lemma PromptsOfGrow(bs: seq<Branch>, k: nat)
    requires 0 < k <= |bs|
    ensures PromptOf(bs[0]) in PromptsOf(bs[..k]) || bs[0].isHead
    ensures PromptsOf(bs[1..][..k - 1]) <= PromptsOf(bs[..k])
  {
    assert bs[0] in bs[..k];
    assert forall b :: b in bs[1..][..k - 1] ==> b in bs[..k];
  }

  /** The input left after the questions about the branches of `bs` that
      are not checked out, asked in order; the checked-out branch reads
      nothing. */
  function InputAfter(bs: seq<Branch>, input: seq<StdinItem>): seq<StdinItem>
    decreases |bs|
  {
    if bs == [] then input
    else if bs[0].isHead then InputAfter(bs[1..], input)
    else InputAfter(bs[1..], input[Resolve(input, bs[0]).consumed..])
  }

  /** The questions only consume input from the front. */
  lemma {:induction false} InputAfterSuffix(bs: seq<Branch>, input: seq<StdinItem>)
    ensures |InputAfter(bs, input)| <= |input|
    ensures InputAfter(bs, input) == input[|input| - |InputAfter(bs, input)|..]
    decreases |bs|
  {
    if bs != [] {
      var next := if bs[0].isHead then input else input[Resolve(input, bs[0]).consumed..];
      InputAfterSuffix(bs[1..], next);
      var rest := InputAfter(bs[1..], next);
      Suffix(input, |input| - |next|, |next| - |rest|);
    }
  }

  /** The run consumes standard input only from the front. */
  lemma WalkInput(bs: seq<Branch>, s: Session, u: set<string>)
    ensures var r := Walk(bs, s, u);
      && |r.session.input| <= |s.input|
      && r.session.input == s.input[|s.input| - |r.session.input|..]
  {
    WalkInputExact(bs, s, u);
    InputAfterSuffix(bs[..|Walk(bs, s, u).verdicts|], s.input);
  }

  /** The input the run leaves is exactly what the questions about the
      branches it reached leave, asked in order, with nothing read for the
      checked-out branch. */
  lemma {:induction false} WalkInputExact(bs: seq<Branch>, s: Session, u: set<string>)
    ensures Walk(bs, s, u).session.input == InputAfter(bs[..|Walk(bs, s, u).verdicts|], s.input)
    decreases |bs|
  {
    if bs != [] {
      var r := Walk(bs, s, u);
      var x := Step(bs[0], s, u);
      var k := |r.verdicts|;
      var p := bs[..k];
      assert p[0] == bs[0] && p[1..] == bs[1..][..k - 1];
      var after := if bs[0].isHead then s.input else s.input[Resolve(s.input, bs[0]).consumed..];
      assert x.session.input == after;
      assert InputAfter(p, s.input) == InputAfter(p[1..], after);
      if x.goesOn {
        WalkInputExact(bs[1..], x.session, u);
      } else {
        assert p[1..] == [];
      }
    }
  }

  /** The run only appends output, and every prompt it writes is for a
      branch it reached that is not the checked-out one. */
  lemma {:induction false} WalkOutput(bs: seq<Branch>, s: Session, u: set<string>)
    ensures var r := Walk(bs, s, u);
      && |r.verdicts| <= |bs|
      && s.output <= r.session.output
      && (forall l :: l in r.session.output[|s.output|..] && l.Prompt? ==> l in PromptsOf(bs[..|r.verdicts|]))
    decreases |bs|
  {
    WalkVerdicts(bs, s, u);
    if bs != [] {
      var r := Walk(bs, s, u);
      var x := Step(bs[0], s, u);
      StepStreams(bs[0], s, u);
      PromptsOfGrow(bs, |r.verdicts|);
      if x.goesOn {
        WalkOutput(bs[1..], x.session, u);
        var mid, all := x.session.output, r.session.output;
        assert all[|s.output|..] == mid[|s.output|..] + all[|mid|..];
      }
    }
  }

  /** Quit is always the last verdict and the run then succeeds. */
  lemma WalkQuit(bs: seq<Branch>, s: Session, u: set<string>, i: nat)
    requires i < |Walk(bs, s, u).verdicts| && Walk(bs, s, u).verdicts[i] == Answered(Chosen(Quit))
    ensures i == |Walk(bs, s, u).verdicts| - 1
    ensures Walk(bs, s, u).exit == Completed && ExitStatus(Walk(bs, s, u).exit) == 0
  {
    WalkVerdicts(bs, s, u);
    WalkExit(bs, s, u);
  }

  /** A failed question (an invalid key or a failed read) is always the
      last verdict, and the run then ends with that error and status 1. */
  lemma WalkFailed(bs: seq<Branch>, s: Session, u: set<string>, i: nat, e: CliError)
    requires i < |Walk(bs, s, u).verdicts| && Walk(bs, s, u).verdicts[i] == Answered(Failed(e))
    ensures i == |Walk(bs, s, u).verdicts| - 1
    ensures Walk(bs, s, u).exit == Errored(e) && ExitStatus(Walk(bs, s, u).exit) == 1
  {
    WalkVerdicts(bs, s, u);
    WalkExit(bs, s, u);
  }

  /** One pass of the branch loop over the console and the repository. */
  method ReviewBranch(con: Console, repo: Repository, b: Branch) returns (verdict: Verdict, goesOn: bool, exit: Exit)
    modifies con, repo
    ensures var x := Step(b, Session(old(con.input), old(con.output), old(repo.present), old(repo.calls)), repo.undeletable);
      && verdict == x.verdict && goesOn == x.goesOn && (!goesOn ==> exit == x.exit)
      && Session(con.input, con.output, repo.present, repo.calls) == x.session
  {
    goesOn, exit := true, Completed;
    if b.isHead {
      con.Write([HeadSkipped]);
      return Skipped, goesOn, exit;
    }
    var reply := HandleUserInput(con, b);
    verdict, goesOn := Answered(reply), false;
    match reply {
      case InputExhausted =>
        exit := OutOfInput;
      case Failed(e) =>
        exit := Errored(e);
      case Chosen(a) =>
        match a {
          case Quit =>
            exit := Completed;
          case Undo =>
            exit := Panicked;
          case Keep =>
            goesOn := true;
          case Delete =>
            var deleted := repo.DeleteBranch(b.name);
            if deleted.Err? {
              exit := Errored(deleted.error);
            } else {
              con.Write([Deleted(b.name, b.id)]);
              goesOn := true;
            }
        }
    }
  }

  /** The program: collect the branches, then review them over the console
      and the repository. Errors before the review change nothing. */
  method Run(con: Console, repo: Repository, listing: Result<seq<Entry>>)
    returns (exit: Exit, ghost reviewed: seq<Branch>)
    modifies con, repo
    ensures listing.Err? ==> exit == Errored(listing.error) && unchanged(con, repo)
    ensures listing.Ok? && !AllRead(listing.value) ==>
      exit.Errored? && IsFirstError(listing.value, exit.error) && unchanged(con, repo)
    ensures listing.Ok? && AllRead(listing.value) ==>
      && SortedByTime(reviewed) && MasterDropped(reviewed, listing.value)
      && var r := Review(reviewed, Session(old(con.input), old(con.output), old(repo.present), old(repo.calls)), repo.undeletable);
      && exit == r.exit
      && con.input == r.session.input && con.output == r.session.output
      && repo.present == r.session.present && repo.calls == r.session.calls
  {
    var found := GetBranches(listing);
    if found.Err? {
      return Errored(found.error), [];
    }
    var branches := found.value;
    reviewed := branches;
    if branches == [] {
      con.Write([NoBranches]);
      return Completed, branches;
    }
    ghost var whole := Walk(branches, Session(con.input, con.output, repo.present, repo.calls), repo.undeletable);
    ghost var verdicts: seq<Verdict> := [];
    var i := 0;
    while i < |branches|
      invariant 0 <= i <= |branches|
      invariant var r := Walk(branches[i..], Session(con.input, con.output, repo.present, repo.calls), repo.undeletable);
        whole == Report(r.exit, r.session, verdicts + r.verdicts)
    {
      assert branches[i..][0] == branches[i] && branches[i..][1..] == branches[i + 1..];
      var verdict, goesOn;
      verdict, goesOn, exit := ReviewBranch(con, repo, branches[i]);
      if !goesOn {
        return;
      }
      Associative(verdicts, [verdict], Walk(branches[i + 1..], Session(con.input, con.output, repo.present, repo.calls), repo.undeletable).verdicts);
      verdicts := verdicts + [verdict];
      i := i + 1;
    }
    assert verdicts + [] == verdicts;
    exit := Completed;
  }
}
