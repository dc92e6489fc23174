/**
 * The command list createPatch emits, as functions of src and dst that follow
 * its loops: the equal-run scan, the two bounded lookaheads, the mismatch loop
 * with its forced step, and the outer loop that emits Equal, or Insert then
 * Delete.
 */
module GreedyDiff {
  import opened DataIO
  import opened PatchFormat
  import Wrappers
  import PatchApply

  /** Lookahead offsets run from 1 while they stay below this bound. */
  const LookaheadLimit: nat := 32

  /**
   * matchLength: how far src[i..] and dst[j..] agree. The run is as long as
   * it can be: it stops at the end of one side or at the first difference.
   */
  function MatchRun(src: seq<byte>, dst: seq<byte>, i: nat, j: nat): (n: nat)
    requires i <= |src| && j <= |dst|
    ensures i + n <= |src| && j + n <= |dst|
    ensures forall k :: i <= k < i + n ==> src[k] == dst[k - i + j]
    ensures i + n == |src| || j + n == |dst| || src[i + n] != dst[j + n]
    decreases |src| - i
  {
    if i < |src| && j < |dst| && src[i] == dst[j] then 1 + MatchRun(src, dst, i + 1, j + 1) else 0
  }

  /**
   * The first lookahead loop, from offset `la` on: the least offset below 32
   * at which src, ahead of i, shows dst[j] again; 0 when there is none.
   */
  function SrcLookahead(src: seq<byte>, dst: seq<byte>, i: nat, j: nat, la: nat): (k: nat)
    requires 1 <= la
    ensures k == 0 || (la <= k < LookaheadLimit && i + k < |src| && j < |dst| && src[i + k] == dst[j])
    ensures k == 0 ==> forall p :: i + la <= p < i + LookaheadLimit && p < |src| && j < |dst| ==> src[p] != dst[j]
    ensures k != 0 ==> forall p :: i + la <= p < i + k ==> src[p] != dst[j]
    decreases LookaheadLimit - la
  {
    if la < LookaheadLimit && i + la < |src| && j < |dst| then
      if src[i + la] == dst[j] then la else SrcLookahead(src, dst, i, j, la + 1)
    else 0
  }

  /**
   * The second lookahead loop, from offset `la` on: the least offset below 32
   * at which dst, ahead of j, shows src[i] again; 0 when there is none.
   */
  function DstLookahead(src: seq<byte>, dst: seq<byte>, i: nat, j: nat, la: nat): (k: nat)
    requires 1 <= la
    ensures k == 0 || (la <= k < LookaheadLimit && i < |src| && j + k < |dst| && src[i] == dst[j + k])
    ensures k == 0 ==> forall p :: j + la <= p < j + LookaheadLimit && p < |dst| && i < |src| ==> src[i] != dst[p]
    ensures k != 0 ==> forall p :: j + la <= p < j + k ==> src[i] != dst[p]
    decreases LookaheadLimit - la
  {
    if la < LookaheadLimit && i < |src| && j + la < |dst| then
      if src[i] == dst[j + la] then la else DstLookahead(src, dst, i, j, la + 1)
    else 0
  }

  /** Cursor positions in src and dst. */
  datatype Cursors = Cursors(i: nat, j: nat)

  /**
   * The cursors after one forced step of the mismatch loop: each cursor that
   * has not reached its end moves by one.
   */
  function ForcedStep(src: seq<byte>, dst: seq<byte>, c: Cursors): (d: Cursors)
    requires c.i <= |src| && c.j <= |dst| && (c.i < |src| || c.j < |dst|)
    ensures d.i <= |src| && d.j <= |dst|
    ensures (|src| - d.i) + (|dst| - d.j) < (|src| - c.i) + (|dst| - c.j)
  {
    Cursors(if c.i < |src| then c.i + 1 else c.i, if c.j < |dst| then c.j + 1 else c.j)
  }

  /**
   * The mismatch loop: where it leaves the cursors. Either both sides are used
   * up, or the cursors rest on a pair of equal bytes found by a lookahead.
   * The forced step never compares src[i] with dst[j] itself, so equal bytes
   * can be passed over.
   */
  function Resync(src: seq<byte>, dst: seq<byte>, c: Cursors): (d: Cursors)
    requires c.i <= |src| && c.j <= |dst| && (c.i < |src| || c.j < |dst|)
    ensures c.i <= d.i <= |src| && c.j <= d.j <= |dst|
    ensures c.i < d.i || c.j < d.j
    ensures (d.i == |src| && d.j == |dst|) || (d.i < |src| && d.j < |dst| && src[d.i] == dst[d.j])
    decreases (|src| - c.i) + (|dst| - c.j)
  {
    var a := SrcLookahead(src, dst, c.i, c.j, 1);
    if a != 0 then Cursors(c.i + a, c.j)
    else
      var b := DstLookahead(src, dst, c.i, c.j, 1);
      if b != 0 then Cursors(c.i, c.j + b)
      else
        var f := ForcedStep(src, dst, c);
        if f.i >= |src| && f.j >= |dst| then f else Resync(src, dst, f)
  }

  /** The mismatch loop stops as soon as the lookahead in src finds dst[j]. */
  lemma ResyncBySrc(src: seq<byte>, dst: seq<byte>, c: Cursors)
    requires c.i <= |src| && c.j <= |dst| && (c.i < |src| || c.j < |dst|)
    requires SrcLookahead(src, dst, c.i, c.j, 1) != 0
    ensures Resync(src, dst, c) == Cursors(c.i + SrcLookahead(src, dst, c.i, c.j, 1), c.j)
  {
  }

  /** Failing that, it stops as soon as the lookahead in dst finds src[i]. */
  lemma ResyncByDst(src: seq<byte>, dst: seq<byte>, c: Cursors)
    requires c.i <= |src| && c.j <= |dst| && (c.i < |src| || c.j < |dst|)
    requires SrcLookahead(src, dst, c.i, c.j, 1) == 0 && DstLookahead(src, dst, c.i, c.j, 1) != 0
    ensures Resync(src, dst, c) == Cursors(c.i, c.j + DstLookahead(src, dst, c.i, c.j, 1))
  {
  }

  /** Otherwise it takes the forced step, and stops there only if both inputs are used up. */
  lemma ResyncByForcedStep(src: seq<byte>, dst: seq<byte>, c: Cursors)
    requires c.i <= |src| && c.j <= |dst| && (c.i < |src| || c.j < |dst|)
    requires SrcLookahead(src, dst, c.i, c.j, 1) == 0 && DstLookahead(src, dst, c.i, c.j, 1) == 0
    ensures ForcedStep(src, dst, c).i == |src| && ForcedStep(src, dst, c).j == |dst| ==>
      Resync(src, dst, c) == ForcedStep(src, dst, c)
    ensures ForcedStep(src, dst, c).i < |src| || ForcedStep(src, dst, c).j < |dst| ==>
      Resync(src, dst, c) == Resync(src, dst, ForcedStep(src, dst, c))
  {
  }

  /** The commands one mismatch region emits: Insert of the skipped src bytes, then Delete of the skipped dst bytes. */
  function Region(src: seq<byte>, dst: seq<byte>, c: Cursors, d: Cursors): seq<Cmd>
    requires c.i <= d.i <= |src| && c.j <= d.j <= |dst|
  {
    (if d.i > c.i then [Insert(src[c.i..d.i])] else []) + (if d.j > c.j then [Delete(dst[c.j..d.j])] else [])
  }

  /** What one pass of the outer loop emits, and where it leaves the cursors. */
  datatype Pass = Pass(emitted: seq<Cmd>, next: Cursors)

  /**
   * One pass of the outer loop: an Equal over the run of equal bytes if there
   * is one, otherwise the mismatch region. Every pass moves at least one
   * cursor forward, so i + j grows strictly.
   */
  function OuterPass(src: seq<byte>, dst: seq<byte>, c: Cursors): (p: Pass)
    requires c.i <= |src| && c.j <= |dst| && (c.i < |src| || c.j < |dst|)
    ensures c.i <= p.next.i <= |src| && c.j <= p.next.j <= |dst|
    ensures c.i + c.j < p.next.i + p.next.j
  {
    var n := MatchRun(src, dst, c.i, c.j);
    if n > 0 then Pass([Equal(n)], Cursors(c.i + n, c.j + n))
    else
      var d := Resync(src, dst, c);
      Pass(Region(src, dst, c, d), d)
  }

  /** The commands the outer loop emits from cursors (i, j) on. */
  function DiffFrom(src: seq<byte>, dst: seq<byte>, c: Cursors): seq<Cmd>
    requires c.i <= |src| && c.j <= |dst|
    decreases (|src| - c.i) + (|dst| - c.j)
  {
    if c.i == |src| && c.j == |dst| then []
    else
      var p := OuterPass(src, dst, c);
      p.emitted + DiffFrom(src, dst, p.next)
  }

  /** The commands of createPatch(src, dst). */
  function Diff(src: seq<byte>, dst: seq<byte>): seq<Cmd> {
    DiffFrom(src, dst, Cursors(0, 0))
  }

  /** The bytes createPatch(src, dst) writes: the header, then every command. */
  function Patch(src: seq<byte>, dst: seq<byte>): seq<byte> {
    Header(src, dst) + EncodeAll(Diff(src, dst))
  }

  /** The bytes an equal run covers on the two sides are the same. */
  lemma {:induction false} MatchRunSlices(src: seq<byte>, dst: seq<byte>, i: nat, j: nat)
    requires i <= |src| && j <= |dst|
    ensures src[i..i + MatchRun(src, dst, i, j)] == dst[j..j + MatchRun(src, dst, i, j)]
    decreases |src| - i
  {
    var n := MatchRun(src, dst, i, j);
    if n > 0 {
      MatchRunSlices(src, dst, i + 1, j + 1);
      assert src[i..i + n] == [src[i]] + src[i + 1..i + n];
      assert dst[j..j + n] == [dst[j]] + dst[j + 1..j + n];
    }
  }

  /** A non-empty equal run is an Equal step: equal bytes, stopped at an end or a difference. */
  lemma MatchRunStep(src: seq<byte>, dst: seq<byte>, i: nat, j: nat)
    requires i <= |src| && j <= |dst| && MatchRun(src, dst, i, j) > 0
    ensures Step(Equal(MatchRun(src, dst, i, j)), src, dst, i, j)
  {
    MatchRunSlices(src, dst, i, j);
  }

  /** A single step is a script to that step's end. */
  lemma StepScript(c: Cmd, src: seq<byte>, dst: seq<byte>, i: nat, j: nat, i': nat, j': nat)
    requires Step(c, src, dst, i, j) && i' == i + SrcLen(c) && j' == j + DstLen(c)
    ensures Script([c], src, dst, i, j, i', j')
  {
    ScriptPrepend(c, [], src, dst, i, j, i', j', i', j');
    assert [c] + [] == [c];
  }

  /** Inserting the src bytes a region skipped is a step. */
  lemma InsertStep(src: seq<byte>, dst: seq<byte>, i: nat, i': nat, j: nat)
    requires i < i' <= |src| && j <= |dst|
    ensures Step(Insert(src[i..i']), src, dst, i, j)
    ensures SrcLen(Insert(src[i..i'])) == i' - i && DstLen(Insert(src[i..i'])) == 0
  {
  }

  /** Deleting the dst bytes a region skipped is a step. */
  lemma DeleteStep(src: seq<byte>, dst: seq<byte>, i: nat, j: nat, j': nat)
    requires i <= |src| && j < j' <= |dst|
    ensures Step(Delete(dst[j..j']), src, dst, i, j)
    ensures SrcLen(Delete(dst[j..j'])) == 0 && DstLen(Delete(dst[j..j'])) == j' - j
  {
  }

  /** An Insert followed by a Delete, each of the bytes skipped on its side, is a script across the region. */
  lemma InsertDeleteScript(src: seq<byte>, dst: seq<byte>, c: Cursors, d: Cursors)
    requires c.i < d.i <= |src| && c.j < d.j <= |dst|
    ensures Script([Insert(src[c.i..d.i])] + [Delete(dst[c.j..d.j])], src, dst, c.i, c.j, d.i, d.j)
  {
    var ins := Insert(src[c.i..d.i]);
    var del := Delete(dst[c.j..d.j]);
    DeleteStep(src, dst, d.i, c.j, d.j);
    StepScript(del, src, dst, d.i, c.j, d.i, d.j);
    InsertStep(src, dst, c.i, d.i, c.j);
    ScriptPrepend(ins, [del], src, dst, c.i, c.j, d.i, c.j, d.i, d.j);
  }

  /** A mismatch region is a script from where the mismatch loop starts to where it stops. */
  lemma RegionScript(src: seq<byte>, dst: seq<byte>, c: Cursors, d: Cursors)
    requires c.i <= d.i <= |src| && c.j <= d.j <= |dst|
    ensures Script(Region(src, dst, c, d), src, dst, c.i, c.j, d.i, d.j)
  {
    if d.i > c.i && d.j > c.j {
      InsertDeleteScript(src, dst, c, d);
    } else if d.i > c.i {
      InsertStep(src, dst, c.i, d.i, c.j);
      StepScript(Insert(src[c.i..d.i]), src, dst, c.i, c.j, d.i, d.j);
      assert Region(src, dst, c, d) == [Insert(src[c.i..d.i])];
    } else if d.j > c.j {
      DeleteStep(src, dst, c.i, c.j, d.j);
      StepScript(Delete(dst[c.j..d.j]), src, dst, c.i, c.j, d.i, d.j);
      assert Region(src, dst, c, d) == [Delete(dst[c.j..d.j])];
    } else {
      assert Region(src, dst, c, d) == [];
    }
  }

  /** Splitting off the first element of a concatenation. */
  lemma AppendCons(a: seq<Cmd>, b: seq<Cmd>)
    requires a != []
    ensures a + b == [a[0]] + (a[1..] + b)
  {
  }

  /** Scripts compose: one from (i, j) to (i1, j1), then one from there to (i', j'). */
  lemma {:induction false} ScriptAppend(a: seq<Cmd>, b: seq<Cmd>, src: seq<byte>, dst: seq<byte>, i: nat, j: nat, i1: nat, j1: nat, i': nat, j': nat)
    requires Script(a, src, dst, i, j, i1, j1)
    requires Script(b, src, dst, i1, j1, i', j')
    ensures Script(a + b, src, dst, i, j, i', j')
    decreases |a|
  {
    if a == [] {
      assert a + b == b;
    } else {
      var i0, j0 := i + SrcLen(a[0]), j + DstLen(a[0]);
      ScriptCons(a, src, dst, i, j, i1, j1);
      ScriptAppend(a[1..], b, src, dst, i0, j0, i1, j1, i', j');
      ScriptPrepend(a[0], a[1..] + b, src, dst, i, j, i0, j0, i', j');
      AppendCons(a, b);
    }
  }

  /** A pass over an equal run emits one Equal step. */
  lemma EqualPassScript(src: seq<byte>, dst: seq<byte>, c: Cursors)
    requires c.i <= |src| && c.j <= |dst| && MatchRun(src, dst, c.i, c.j) > 0
    ensures Script(OuterPass(src, dst, c).emitted, src, dst, c.i, c.j, OuterPass(src, dst, c).next.i, OuterPass(src, dst, c).next.j)
  {
    var n := MatchRun(src, dst, c.i, c.j);
    var p := Pass([Equal(n)], Cursors(c.i + n, c.j + n));
    assert OuterPass(src, dst, c) == p;
    MatchRunStep(src, dst, c.i, c.j);
    StepScript(Equal(n), src, dst, c.i, c.j, p.next.i, p.next.j);
  }

  /** A pass over a mismatch emits the region's Insert and Delete steps. */
  lemma RegionPassScript(src: seq<byte>, dst: seq<byte>, c: Cursors)
    requires c.i <= |src| && c.j <= |dst| && (c.i < |src| || c.j < |dst|) && MatchRun(src, dst, c.i, c.j) == 0
    ensures Script(OuterPass(src, dst, c).emitted, src, dst, c.i, c.j, OuterPass(src, dst, c).next.i, OuterPass(src, dst, c).next.j)
  {
    var d := Resync(src, dst, c);
    assert OuterPass(src, dst, c) == Pass(Region(src, dst, c, d), d);
    RegionScript(src, dst, c, d);
  }

  /**
   * Every command createPatch emits from cursors (i, j) is a valid step and
   * together they take the cursors to the ends of src and dst.
   */
  lemma {:induction false} DiffFromScript(src: seq<byte>, dst: seq<byte>, c: Cursors)
    requires c.i <= |src| && c.j <= |dst|
    ensures Script(DiffFrom(src, dst, c), src, dst, c.i, c.j, |src|, |dst|)
    decreases (|src| - c.i) + (|dst| - c.j)
  {
    if c.i < |src| || c.j < |dst| {
      var p := OuterPass(src, dst, c);
      if MatchRun(src, dst, c.i, c.j) > 0 {
        EqualPassScript(src, dst, c);
      } else {
        RegionPassScript(src, dst, c);
      }
      DiffFromScript(src, dst, p.next);
      ScriptAppend(p.emitted, DiffFrom(src, dst, p.next), src, dst, c.i, c.j, p.next.i, p.next.j, |src|, |dst|);
    }
  }

  /** The pass after an equal run does not start on another equal run: the run was maximal. */
  lemma RunThenNoRun(src: seq<byte>, dst: seq<byte>, i: nat, j: nat)
    requires i <= |src| && j <= |dst|
    ensures MatchRun(src, dst, i + MatchRun(src, dst, i, j), j + MatchRun(src, dst, i, j)) == 0
  {
  }

  /** A pass over an equal run emits Equal; a pass over a mismatch emits Insert or Delete first. */
  lemma EqualPassHead(src: seq<byte>, dst: seq<byte>, c: Cursors)
    requires c.i <= |src| && c.j <= |dst| && MatchRun(src, dst, c.i, c.j) > 0
    ensures OuterPass(src, dst, c).emitted == [Equal(MatchRun(src, dst, c.i, c.j))]
    ensures OuterPass(src, dst, c).next
         == Cursors(c.i + MatchRun(src, dst, c.i, c.j), c.j + MatchRun(src, dst, c.i, c.j))
  {
  }

  /** The outer loop is one pass followed by the loop from where the pass stopped. */
  lemma DiffFromUnfold(src: seq<byte>, dst: seq<byte>, c: Cursors)
    requires c.i <= |src| && c.j <= |dst| && (c.i < |src| || c.j < |dst|)
    ensures DiffFrom(src, dst, c) == OuterPass(src, dst, c).emitted + DiffFrom(src, dst, OuterPass(src, dst, c).next)
  {
  }

  /** A pass that does not start on an equal run emits the mismatch region up to the resync point. */
  lemma RegionPass(src: seq<byte>, dst: seq<byte>, c: Cursors)
    requires c.i <= |src| && c.j <= |dst| && (c.i < |src| || c.j < |dst|) && MatchRun(src, dst, c.i, c.j) == 0
    ensures OuterPass(src, dst, c) == Pass(Region(src, dst, c, Resync(src, dst, c)), Resync(src, dst, c))
  {
  }

  /** A mismatch pass emits a well-ordered, non-empty region that starts with Insert or Delete and is followed by an equal run or the end. */
  lemma RegionPassShape(src: seq<byte>, dst: seq<byte>, c: Cursors)
    requires c.i <= |src| && c.j <= |dst| && (c.i < |src| || c.j < |dst|) && MatchRun(src, dst, c.i, c.j) == 0
    ensures OuterPass(src, dst, c).emitted != [] && !OuterPass(src, dst, c).emitted[0].Equal?
    ensures WellOrdered(OuterPass(src, dst, c).emitted)
    ensures !OuterPass(src, dst, c).emitted[|OuterPass(src, dst, c).emitted| - 1].Equal?
    ensures OuterPass(src, dst, c).next == Resync(src, dst, c)
    ensures (Resync(src, dst, c).i == |src| && Resync(src, dst, c).j == |dst|)
         || MatchRun(src, dst, Resync(src, dst, c).i, Resync(src, dst, c).j) > 0
  {
    var d := Resync(src, dst, c);
    assert OuterPass(src, dst, c) == Pass(Region(src, dst, c, d), d);
  }

  /** Where commands remain, the first one is an Equal exactly when the cursors start on an equal run. */
  lemma DiffFromHead(src: seq<byte>, dst: seq<byte>, c: Cursors)
    requires c.i <= |src| && c.j <= |dst| && (c.i < |src| || c.j < |dst|)
    ensures DiffFrom(src, dst, c) != []
    ensures DiffFrom(src, dst, c)[0].Equal? <==> MatchRun(src, dst, c.i, c.j) > 0
  {
    var p := OuterPass(src, dst, c);
    assert DiffFrom(src, dst, c) == p.emitted + DiffFrom(src, dst, p.next);
    if MatchRun(src, dst, c.i, c.j) > 0 {
      EqualPassHead(src, dst, c);
    } else {
      RegionPassShape(src, dst, c);
    }
    assert DiffFrom(src, dst, c)[0] == p.emitted[0];
  }

  /**
   * The emitted commands never hold two Equals or two Inserts in a row, and a
   * Delete is followed only by an Equal: Insert comes before Delete within a
   * mismatch region, and a region always ends on resynchronised bytes.
   */
  lemma {:induction false} DiffFromWellOrdered(src: seq<byte>, dst: seq<byte>, c: Cursors)
    requires c.i <= |src| && c.j <= |dst|
    ensures WellOrdered(DiffFrom(src, dst, c))
    decreases (|src| - c.i) + (|dst| - c.j)
  {
    if c.i < |src| || c.j < |dst| {
      var p := OuterPass(src, dst, c);
      DiffFromUnfold(src, dst, c);
      DiffFromWellOrdered(src, dst, p.next);
      if MatchRun(src, dst, c.i, c.j) > 0 {
        EqualPassOrdered(src, dst, c);
      } else {
        RegionPassOrdered(src, dst, c);
      }
    }
  }

  /** An Equal pass may precede whatever the loop emits after it: the loop resumes off an equal run. */
  lemma EqualPassOrdered(src: seq<byte>, dst: seq<byte>, c: Cursors)
    requires c.i <= |src| && c.j <= |dst| && MatchRun(src, dst, c.i, c.j) > 0
    requires WellOrdered(DiffFrom(src, dst, OuterPass(src, dst, c).next))
    ensures WellOrdered(OuterPass(src, dst, c).emitted + DiffFrom(src, dst, OuterPass(src, dst, c).next))
  {
    var n := MatchRun(src, dst, c.i, c.j);
    var p := OuterPass(src, dst, c);
    var rest := DiffFrom(src, dst, p.next);
    EqualPassHead(src, dst, c);
    assert p.emitted == [Equal(n)] && p.next.i == c.i + n && p.next.j == c.j + n;
    RunThenNoRun(src, dst, c.i, c.j);
    if rest != [] {
      DiffFromHead(src, dst, p.next);
      assert p.emitted[|p.emitted| - 1] == Equal(n) && Follows(Equal(n), rest[0]);
    }
    assert p.emitted != [] && rest != [] ==> Follows(p.emitted[|p.emitted| - 1], rest[0]);
    WellOrderedAppend(p.emitted, rest);
  }

  /** A mismatch pass may precede whatever the loop emits after it: the loop resumes on an equal run or stops. */
  lemma RegionPassOrdered(src: seq<byte>, dst: seq<byte>, c: Cursors)
    requires c.i <= |src| && c.j <= |dst| && (c.i < |src| || c.j < |dst|) && MatchRun(src, dst, c.i, c.j) == 0
    requires WellOrdered(DiffFrom(src, dst, OuterPass(src, dst, c).next))
    ensures WellOrdered(OuterPass(src, dst, c).emitted + DiffFrom(src, dst, OuterPass(src, dst, c).next))
  {
    var d := Resync(src, dst, c);
    var region := OuterPass(src, dst, c).emitted;
    RegionPassShape(src, dst, c);
    var rest := DiffFrom(src, dst, d);
    if rest != [] {
      DiffFromHead(src, dst, d);
      assert Follows(region[|region| - 1], rest[0]);
    }
    WellOrderedAppend(region, rest);
  }

  /**
   * The commands of createPatch(src, dst) form a script from the start of
   * both inputs to their ends, in the order the greedy loop allows: Equal and
   * Insert lengths add up to |src|, Equal and Delete lengths to |dst|, and no
   * two Equals are adjacent.
   */
  lemma DiffValid(src: seq<byte>, dst: seq<byte>)
    ensures Script(Diff(src, dst), src, dst, 0, 0, |src|, |dst|)
    ensures WellOrdered(Diff(src, dst))
    ensures SrcTotal(Diff(src, dst)) == |src| && DstTotal(Diff(src, dst)) == |dst|
    ensures forall k :: 0 <= k < |Diff(src, dst)| - 1 ==> !(Diff(src, dst)[k].Equal? && Diff(src, dst)[k + 1].Equal?)
  {
    DiffFromScript(src, dst, Cursors(0, 0));
    DiffFromWellOrdered(src, dst, Cursors(0, 0));
    ScriptSpan(Diff(src, dst), src, dst, 0, 0, |src|, |dst|);
    ScriptNoAdjacentEquals(Diff(src, dst), src, dst, 0, 0, |src|, |dst|);
  }

  /** Over identical inputs the equal run reaches the end. */
  lemma {:induction false} MatchRunSelf(x: seq<byte>, i: nat)
    requires i <= |x|
    ensures MatchRun(x, x, i, i) == |x| - i
    decreases |x| - i
  {
    if i < |x| {
      MatchRunSelf(x, i + 1);
    }
  }

  /** Identical inputs give no command when empty and a single Equal over everything otherwise. */
  lemma DiffIdentical(x: seq<byte>)
    ensures Diff(x, x) == if x == [] then [] else [Equal(|x|)]
  {
    if x != [] {
      MatchRunSelf(x, 0);
      EqualPassHead(x, x, Cursors(0, 0));
      assert DiffFrom(x, x, Cursors(|x|, |x|)) == [];
      assert Diff(x, x) == [Equal(|x|)] + [];
    }
  }

  /**
   * The forced step never looks at src[i] against dst[j], so a mismatch
   * region can pass over bytes that agree: for src "AXB" and dst "CXB" the
   * whole of both inputs goes into one Insert and one Delete.
   */
  lemma ForcedStepPassesEqualBytes()
    ensures var src: seq<byte> := [65, 88, 66];
      var dst: seq<byte> := [67, 88, 66];
      && src[1..] == dst[1..]
      && Diff(src, dst) == [Insert(src), Delete(dst)]
  {
    var src: seq<byte> := [65, 88, 66];
    var dst: seq<byte> := [67, 88, 66];
    assert MatchRun(src, dst, 0, 0) == 0;
    assert Resync(src, dst, Cursors(2, 2)) == Cursors(3, 3);
    assert Resync(src, dst, Cursors(1, 1)) == Cursors(3, 3);
    assert Resync(src, dst, Cursors(0, 0)) == Cursors(3, 3);
    assert src[0..3] == src && dst[0..3] == dst;
    assert Region(src, dst, Cursors(0, 0), Cursors(3, 3)) == [Insert(src), Delete(dst)];
    assert DiffFrom(src, dst, Cursors(3, 3)) == [];
    assert Diff(src, dst) == [Insert(src), Delete(dst)] + [];
  }

  /** Applying the patch createPatch writes for (src, dst) to dst succeeds and rebuilds src, with no size warning. */
  lemma PatchRoundTrip(src: seq<byte>, dst: seq<byte>)
    requires |src| <= MaxInt32 && |dst| <= MaxInt32
    ensures PatchApply.Apply(Patch(src, dst), dst) == Wrappers.Success(PatchApply.Applied(src, false))
  {
    DiffFromScript(src, dst, Cursors(0, 0));
    PatchApply.RoundTrip(Diff(src, dst), src, dst);
  }
}
