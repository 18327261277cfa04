/** Collecting the branches to review: every local branch the repository
    enumerates, with its commit time shifted by the commit's UTC offset, the
    branch named "master" dropped, the first unreadable entry aborting the
    collection, and the survivors sorted by time. */
module Branches {
  import opened Cli

  /** The branch that is never offered for review. */
  const Master: string := "master"

  /** The textual form of a commit id. Only its first ten characters are
      shown in prompts, so it has at least that many. */
  type CommitId = s: string | |s| >= 10 witness "0000000000"

  /** What the repository reports for one local branch: the tip commit's id,
      its time in seconds and UTC offset in minutes, the branch name, and
      whether it is the checked-out branch. */
  datatype RawBranch = RawBranch(
    id: CommitId,
    seconds: int,
    offsetMinutes: int,
    name: string,
    isHead: bool)

  /** One item of the enumeration: a branch that could be read, or the error
      met while reading it (a failed lookup, a name that is not UTF-8, a tip
      that is not a commit). */
  datatype Entry = Read(raw: RawBranch) | Unreadable(error: CliError)

  /** A branch under review, with its commit time in local seconds. */
  datatype Branch = Branch(id: CommitId, time: int, name: string, isHead: bool)

  /** The commit time shifted by the commit's UTC offset. */
  function AdjustedTime(seconds: int, offsetMinutes: int): int
  {
    seconds + 60 * offsetMinutes
  }

  /** The branch built from what the repository reports: the same commit,
      name and head flag, with the adjusted time. */
  function ToBranch(raw: RawBranch): (b: Branch)
    ensures b.id == raw.id && b.name == raw.name && b.isHead == raw.isHead
  {
    Branch(raw.id, AdjustedTime(raw.seconds, raw.offsetMinutes), raw.name, raw.isHead)
  }

  /** Adjusted times order commits made in the same time zone as their
      seconds do, and a commit one hour east of another at the same instant
      counts as an hour later. */
  lemma AdjustedOrder(r1: RawBranch, r2: RawBranch)
    ensures r1.offsetMinutes == r2.offsetMinutes ==>
      (ToBranch(r1).time <= ToBranch(r2).time <==> r1.seconds <= r2.seconds)
    ensures r1.seconds == r2.seconds ==>
      ToBranch(r1).time - ToBranch(r2).time == 60 * (r1.offsetMinutes - r2.offsetMinutes)
  {
  }

  predicate AllRead(entries: seq<Entry>)
  {
    forall i :: 0 <= i < |entries| ==> entries[i].Read?
  }

  /** `e` is the error of the first unreadable entry. */
  predicate IsFirstError(entries: seq<Entry>, e: CliError)
  {
    exists i :: 0 <= i < |entries| && entries[i] == Unreadable(e) && AllRead(entries[..i])
  }

  /** Every entry of an error-free enumeration as a branch, master included,
      in enumeration order. */
  function ReadBranches(entries: seq<Entry>): seq<Branch>
    requires AllRead(entries)
  {
    seq(|entries|, i requires 0 <= i < |entries| => ToBranch(entries[i].raw))
  }

  /** Every branch except master occurs in the survivors exactly as often as
      it was read, and master not at all. */
  ghost predicate MasterDropped(survivors: seq<Branch>, entries: seq<Entry>)
    requires AllRead(entries)
  {
    forall b :: multiset(survivors)[b] == if b.name == Master then 0 else multiset(ReadBranches(entries))[b]
  }

  lemma ReadBranchesCons(entries: seq<Entry>)
    requires entries != [] && AllRead(entries)
    ensures AllRead(entries[1..])
    ensures ReadBranches(entries) == [ToBranch(entries[0].raw)] + ReadBranches(entries[1..])
  {
    assert forall i :: 0 <= i < |entries| - 1 ==> entries[1..][i] == entries[i + 1];
  }

  /** The map, filter and collect of the enumeration: converts each entry,
      drops master, and stops at the first unreadable entry, whose error
      becomes the result. */
  function Collect(entries: seq<Entry>): (r: Result<seq<Branch>>)
    ensures r.Ok? <==> AllRead(entries)
    ensures r.Err? ==> IsFirstError(entries, r.error)
    ensures r.Ok? ==> MasterDropped(r.value, entries)
    decreases |entries|
  {
    if entries == [] then Ok([])
    else
      match entries[0]
      case Unreadable(e) =>
        assert entries[..0] == [];
        Err(e)
      case Read(raw) =>
        var rest := Collect(entries[1..]);
        assert AllRead(entries) <==> AllRead(entries[1..]);
        if rest.Err? then
          assert IsFirstError(entries, rest.error) by {
            var i :| 0 <= i < |entries[1..]| && entries[1..][i] == Unreadable(rest.error) && AllRead(entries[1..][..i]);
            assert entries[..i + 1] == [entries[0]] + entries[1..][..i];
          }
          rest
        else
          ReadBranchesCons(entries);
          if raw.name == Master then rest
          else Ok([ToBranch(raw)] + rest.value)
  }

  predicate SortedByTime(s: seq<Branch>)
  {
    forall i, j :: 0 <= i < j < |s| ==> s[i].time <= s[j].time
  }

  /** The position of an earliest branch in `a[i..]`. */
  method EarliestFrom(a: array<Branch>, i: nat) returns (m: nat)
    requires i < a.Length
    ensures i <= m < a.Length
    ensures forall k :: i <= k < a.Length ==> a[m].time <= a[k].time
  {
    m := i;
    var j := i + 1;
    while j < a.Length
      invariant i <= m < j <= a.Length
      invariant forall k :: i <= k < j ==> a[m].time <= a[k].time
    {
      if a[j].time < a[m].time {
        m := j;
      }
      j := j + 1;
    }
  }

  method Swap(a: array<Branch>, i: nat, j: nat)
    requires i < a.Length && j < a.Length
    modifies a
    ensures a[i] == old(a[j]) && a[j] == old(a[i])
    ensures forall k :: 0 <= k < a.Length && k != i && k != j ==> a[k] == old(a[k])
    ensures multiset(a[..]) == old(multiset(a[..]))
  {
    a[i], a[j] := a[j], a[i];
  }

  /** Sorts the branches by time in place, by selection: the order of
      branches with equal times is not specified. */
  method SortByTime(a: array<Branch>)
    modifies a
    ensures SortedByTime(a[..])
    ensures multiset(a[..]) == old(multiset(a[..]))
  {
    var i := 0;
    while i < a.Length
      invariant 0 <= i <= a.Length
      invariant forall p, q :: 0 <= p < q < i ==> a[p].time <= a[q].time
      invariant forall p, q :: 0 <= p < i <= q < a.Length ==> a[p].time <= a[q].time
      invariant multiset(a[..]) == old(multiset(a[..]))
    {
      var m := EarliestFrom(a, i);
      Swap(a, i, m);
      i := i + 1;
    }
  }

  /** The branches to review, or the error that stops the run: a failed
      enumeration, or else the first unreadable entry. On success the result
      holds every non-master branch exactly as often as it was read, and
      none named master, sorted by adjusted time. */
  method GetBranches(listing: Result<seq<Entry>>) returns (r: Result<seq<Branch>>)
    ensures listing.Err? ==> r == Err(listing.error)
    ensures listing.Ok? ==> (r.Ok? <==> AllRead(listing.value))
    ensures listing.Ok? && r.Err? ==> IsFirstError(listing.value, r.error)
    ensures r.Ok? ==> listing.Ok? && AllRead(listing.value)
    ensures r.Ok? ==> SortedByTime(r.value) && MasterDropped(r.value, listing.value)
  {
    if listing.Err? {
      return Err(listing.error);
    }
    var collected := Collect(listing.value);
    if collected.Err? {
      return Err(collected.error);
    }
    var survivors := collected.value;
    var a := new Branch[|survivors|](i requires 0 <= i < |survivors| => survivors[i]);
    assert a[..] == survivors;
    SortByTime(a);
    r := Ok(a[..]);
  }
}
