/** Which commands the prober visits in an arbitrary file: the longest prefix of the region that is cut
    into commands, and what is raised where the cutting stops. */
module MachoCut {
  import opened Words
  import opened Masks
  import opened MachoFormat
  import opened MachoSpec
  import opened MachoLayout
  import opened MachoParse
  import opened MachoAccept

  /** The commands at `offs` cover [o, stop), and the next one is not read: the count is used up, the
      region is, or what is there does not fit. */
  predicate Cut(b: seq<byte>, offs: seq<nat>, o: nat, stop: u32, end: u32, n: nat) {
    && o <= stop <= end <= |b|
    && Tiling(b, offs, o, stop) && |offs| <= n
    && (|offs| == n || stop == end || !CommandFits(b, stop, end))
  }

  /** What is raised there: too few bytes for a command's header, or a size that does not fit. */
  function CutFault(stop: u32, end: u32, done: nat, n: nat): bv32
    requires stop <= end
  {
    if done == n || stop == end then 0
    else if end - stop < 8 then FAIL_COMMAND_BOUNDS
    else FAIL_COMMAND_SIZE
  }

  lemma {:induction false} CutExists(b: seq<byte>, o: u32, end: u32, n: nat) returns (offs: seq<nat>, stop: u32)
    requires o <= end <= |b|
    ensures Cut(b, offs, o, stop, end, n)
    decreases n
  {
    if n == 0 || o == end || !CommandFits(b, o, end) {
      offs, stop := [], o;
    } else {
      var rest;
      rest, stop := CutExists(b, o + CmdSize(b, o), end, n - 1);
      offs := [o] + rest;
      assert offs[1..] == rest;
    }
  }

  /** The walk visits exactly the commands of the cut. */
  lemma {:induction false} WalkCut(f: Facts, b: seq<byte>, size: u32, offs: seq<nat>, o: nat, stop: u32, end: u32,
                                   n: nat)
    requires Cut(b, offs, o, stop, end, n)
    ensures AllIn(b, offs)
    ensures var g := Fold(f, b, size, offs);
            Walk(f, b, size, o, end, n) == (g.(fail := Raise(g.fail, CutFault(stop, end, |offs|, n))), stop)
    decreases |offs|
  {
    hide Raise, ApplyCommand, CmdSize;
    TilingIn(b, offs, o, stop);
    if offs == [] {
      RaiseNone(f.fail);
    } else {
      WalkCut(ApplyCommand(f, b, size, o), b, size, offs[1..], o + CmdSize(b, o), stop, end, n - 1);
    }
  }

  /** The command region lies in the file and is a whole number of words. */
  predicate RegionGood(b: seq<byte>) {
    |b| >= 28 && 28 + HeaderAt(b).sizeofcmds <= |b| && HeaderAt(b).sizeofcmds % 4 == 0
  }

  /** The commands the prober visits: those of the cut of its region, or none. */
  predicate Visits(b: seq<byte>, offs: seq<nat>, stop: u32) {
    && 28 <= |b| < TWO32
    && if RegionGood(b)
       then Cut(b, offs, 28, stop, 28 + HeaderAt(b).sizeofcmds, HeaderAt(b).ncmds)
       else offs == [] && stop == 28
  }

  lemma VisitsSome(b: seq<byte>) returns (offs: seq<nat>, stop: u32)
    requires 28 <= |b| < TWO32
    ensures Visits(b, offs, stop)
  {
    if RegionGood(b) {
      offs, stop := CutExists(b, 28, 28 + HeaderAt(b).sizeofcmds, HeaderAt(b).ncmds);
    } else {
      offs, stop := [], 28;
    }
  }

  lemma VisitedIn(b: seq<byte>, offs: seq<nat>, stop: u32)
    requires Visits(b, offs, stop)
    ensures AllIn(b, offs) && 28 + 8 * |offs| <= stop <= |b|
    ensures forall o :: o in offs ==> 28 <= o && o + CmdSize(b, o) <= stop
  {
    if RegionGood(b) {
      TilingIn(b, offs, 28, stop);
    }
  }

  /** A clean tiling of the whole region is what is visited. */
  lemma TilingIsVisited(b: seq<byte>, offs: seq<nat>)
    requires CommandsAt(b, offs) && HeaderAt(b).sizeofcmds % 4 == 0
    ensures Visits(b, offs, RegionEnd(b))
  {
  }

  /** The region was read to its end, in the number of commands the header announces. */
  predicate ReadWhole(b: seq<byte>, offs: seq<nat>, stop: u32) {
    RegionGood(b) && |offs| == HeaderAt(b).ncmds && stop == 28 + HeaderAt(b).sizeofcmds
  }

  /** Where the region was left because a size did not fit. */
  predicate LeftOnSize(b: seq<byte>, offs: seq<nat>, stop: u32) {
    RegionGood(b) && |offs| != HeaderAt(b).ncmds && stop + 8 <= 28 + HeaderAt(b).sizeofcmds
  }

  /** The facts after the command loop, before the closing tests. */
  function StartOf(b: seq<byte>): Facts
    requires |b| >= 28
  {
    var f := StartFacts(HeaderAt(b));
    f.(valid := Raise(f.valid, Flag(RegionGood(b), VALID_COMMAND_BOUNDS)))
  }

  lemma CommandsRead(b: seq<byte>, offs: seq<nat>, stop: u32)
    requires Visits(b, offs, stop)
    ensures AllIn(b, offs)
    ensures var f := Fold(StartOf(b), b, |b|, offs);
            CheckCommands(StartFacts(HeaderAt(b)), b, HeaderAt(b)) ==
            f.(fail := Raise(Raise(f.fail, Flag(LeftOnSize(b, offs, stop), FAIL_COMMAND_SIZE)),
                             Flag(!ReadWhole(b, offs, stop), FAIL_COMMAND_BOUNDS)))
  {
    hide Raise, ApplyCommand, HeaderAt, Walk, HeaderFault, HeaderValid, Fold;
    VisitedIn(b, offs, stop);
    var h := HeaderAt(b);
    RaiseNone(StartFacts(h).valid);
    RaiseNone(StartFacts(h).fail);
    if RegionGood(b) {
      var end := 28 + h.sizeofcmds;
      WalkCut(StartOf(b), b, |b|, offs, 28, stop, end, h.ncmds);
      FoldCounts(StartOf(b), b, |b|, offs);
      var g := Fold(StartOf(b), b, |b|, offs);
      SmallWrap(|offs|);
      CutFaultJoins(g.fail, stop, end, |offs|, h.ncmds);
    } else {
      NothingFolded(StartOf(b), b, |b|);
    }
  }

  lemma NothingFolded(f: Facts, b: seq<byte>, size: u32)
    ensures Fold(f, b, size, []) == f
  {
  }

  lemma SmallWrap(n: nat)
    ensures n < TWO32 ==> Wrap(0 + n) == n
  {
  }

  lemma CutFaultJoins(m: bv32, stop: u32, end: u32, done: nat, n: nat)
    requires stop <= end && done <= n
    ensures var whole := done == n && stop == end;
            Raise(Raise(m, CutFault(stop, end, done, n)), Flag(!whole, FAIL_COMMAND_BOUNDS)) ==
            Raise(Raise(m, Flag(done != n && stop + 8 <= end, FAIL_COMMAND_SIZE)), Flag(!whole, FAIL_COMMAND_BOUNDS))
  {
    hide Raise;
    RaiseNone(m);
    RaiseTwice(m, FAIL_COMMAND_BOUNDS);
  }
}
