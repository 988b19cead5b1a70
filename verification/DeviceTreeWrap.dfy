/** When the 32-bit walk is the walk that was meant: exactly when no sum it tests has wrapped. */
module DeviceTreeWrap {
  import opened Words
  import opened Runtime
  import opened DeviceTree
  import opened DeviceTreeTheorems
  import opened DeviceTreeWalk

  lemma LoadIsLe32(m: seq<byte>, a: u32)
    requires IsMemory(m) && a + 4 <= TWO32
    ensures Load(m, a) == Le32(m, a)
  {
    hide Add32;
    SmallSum(a, 1);
    SmallSum(a, 2);
    SmallSum(a, 3);
  }

  lemma SmallSum(a: u32, b: u32)
    ensures Add32(a, b) == if a + b < TWO32 then a + b else a + b - TWO32
  {
  }

  // ----- the missing guard -----

  /** At the property header at `p` a wrapped sum passes a test: that of the header itself, or that of the
      value. */
  predicate HeaderWraps(m: seq<byte>, p: nat, end: u32)
    requires IsMemory(m)
  {
    if p + 36 >= TWO32 then p < TWO32 && p + 36 - TWO32 <= end
    else p + 36 <= end && p + 36 + Le32(m, p + 32) >= TWO32
  }

  /** For a tree that ends below the last forty bytes of the address space this is one comparison. */
  lemma HeaderWrapsMeans(m: seq<byte>, p: nat, end: u32)
    requires IsMemory(m) && end <= 0xffff_ffd8 && p <= end + 3
    ensures HeaderWraps(m, p, end) <==> p + 36 <= end && p + 36 + Le32(m, p + 32) >= TWO32
  {
  }

  /** Some property header that the walk visits wraps. */
  predicate PropsWrap(m: seq<byte>, p: nat, end: u32, n: nat)
    requires IsMemory(m)
    decreases n
  {
    n > 0 &&
    (HeaderWraps(m, p, end) ||
     (p + 36 <= end && p + 36 + Le32(m, p + 32) <= end &&
      PropsWrap(m, p + 36 + Align4(Le32(m, p + 32)), end, n - 1)))
  }

  predicate NodeWraps(m: seq<byte>, p: nat, end: u32)
    requires IsMemory(m)
    decreases Remaining(p, end), 0, 0
  {
    if p + 8 >= TWO32 then p < TWO32 && p + 8 - TWO32 <= end
    else
      p + 8 <= end &&
      (PropsWrap(m, p + 8, end, Le32(m, p)) ||
       (SkipProps(m, p + 8, end, Le32(m, p)).Some? &&
        ChildrenWrap(m, SkipProps(m, p + 8, end, Le32(m, p)).value, end, Le32(m, p + 4))))
  }

  predicate ChildrenWrap(m: seq<byte>, p: nat, end: u32, n: nat)
    requires IsMemory(m)
    decreases Remaining(p, end), 1, n
  {
    n > 0 &&
    (NodeWraps(m, p, end) ||
     (SkipNode(m, p, end).Some? && ChildrenWrap(m, SkipNode(m, p, end).value, end, n - 1)))
  }

  // ----- what happens without it -----

  /** An end that a 4-aligned buffer can have. */
  const LAST_END: u32 := 0xffff_fffc

  /** Without a wrap the 32-bit walk is the intended one; with one it has passed more tests than the
      intended one, which had stopped. */
  predicate Follows(w: Walk, r: Option<nat>, passed: seq<nat>, wraps: bool) {
    if wraps then r.None? && |w.passed| > |passed|
    else w == Walk(Done(r), passed) && (r.Some? ==> r.value < TWO32)
  }

  lemma {:induction false} PropsFollow(m: seq<byte>, p: u32, end: u32, n: nat)
    requires IsMemory(m) && end <= LAST_END
    ensures Follows(WalkProps(m, p, end, n), SkipProps(m, p, end, n), PropsPassed(m, p, end, n),
                    PropsWrap(m, p, end, n))
    decreases n
  {
    hide Load, Le32, Align4, Add32, Words4;
    SmallSum(p, 36);
    if n > 0 && p + 36 <= end {
      SmallSum(p, 32);
      LoadIsLe32(m, p + 32);
      var len := Le32(m, p + 32);
      SmallSum(p + 36, len);
      if p + 36 + len <= end {
        NextProp(p, len, end);
        SmallSum(p + 36, Align4(len));
        PropsFollow(m, p + 36 + Align4(len), end, n - 1);
      }
    }
  }

  lemma {:induction false} NodeFollows(m: seq<byte>, p: u32, end: u32, depth: nat)
    requires IsMemory(m) && end <= LAST_END && depth > Remaining(p, end)
    ensures Follows(WalkNode(m, p, end, depth), SkipNode(m, p, end), NodePassed(m, p, end), NodeWraps(m, p, end))
    decreases Remaining(p, end), 0, 0
  {
    hide Load, Le32, Add32, Words4, PropsWrap, WalkProps, SkipProps, PropsPassed, WalkChildren, SkipChildren,
         ChildrenPassed, ChildrenWrap;
    SmallSum(p, 8);
    SmallSum(p, 4);
    if p + 8 <= end {
      LoadIsLe32(m, p);
      LoadIsLe32(m, p + 4);
      PropsFollow(m, p + 8, end, Le32(m, p));
      var q := SkipProps(m, p + 8, end, Le32(m, p));
      if q.Some? && q.value < TWO32 {
        ChildrenFollow(m, q.value, end, Le32(m, p + 4), depth - 1);
      }
    }
  }

  lemma {:induction false} ChildrenFollow(m: seq<byte>, p: u32, end: u32, n: nat, depth: nat)
    requires IsMemory(m) && end <= LAST_END && p <= end + 3 && depth > Remaining(p, end)
    ensures Follows(WalkChildren(m, p, end, n, depth), SkipChildren(m, p, end, n), ChildrenPassed(m, p, end, n),
                    ChildrenWrap(m, p, end, n))
    decreases Remaining(p, end), 1, n
  {
    hide WalkNode, SkipNode, NodePassed, NodeWraps, Words4;
    if n > 0 {
      NodeFollows(m, p, end, depth);
      var q := SkipNode(m, p, end);
      if q.Some? && q.value < TWO32 {
        ChildrenFollow(m, q.value, end, n - 1, depth);
      }
    }
  }

  /** The 32-bit walk passes the same tests and ends the same way as the intended one exactly when no
      header it visits wraps. */
  lemma WalkExactly(m: seq<byte>, p: u32, end: u32, depth: nat)
    requires IsMemory(m) && end <= LAST_END && depth > Remaining(p, end)
    ensures WalkNode(m, p, end, depth) == Walk(Done(SkipNode(m, p, end)), NodePassed(m, p, end))
            <==> !NodeWraps(m, p, end)
  {
    hide WalkNode, SkipNode, NodePassed, NodeWraps;
    NodeFollows(m, p, end, depth);
  }

  /** Then it ends, with nothing or past the node's own header and inside the buffer. */
  lemma WalkIsTotal(m: seq<byte>, p: u32, end: u32, depth: nat)
    requires IsMemory(m) && end <= LAST_END && depth > Remaining(p, end) && !NodeWraps(m, p, end)
    ensures var o := WalkNode(m, p, end, depth).outcome;
            && o.Done?
            && (o.at.Some? ==> p + 8 <= o.at.value <= end + 3)
            && (o.at.Some? && p % 4 == 0 && end % 4 == 0 ==> o.at.value <= end && o.at.value % 4 == 0)
  {
    hide WalkNode, SkipNode, NodePassed, NodeWraps;
    WalkExactly(m, p, end, depth);
    if p % 4 == 0 && end % 4 == 0 {
      SkipStaysInside(m, p, end);
    }
    SkipBounds(m, p, end);
  }

  lemma SkipBounds(m: seq<byte>, p: nat, end: u32)
    requires end <= |m|
    ensures SkipNode(m, p, end).Some? ==> p + 8 <= SkipNode(m, p, end).value <= end + 3
  {
    hide *;
  }

  /** A walk that was meant to arrive does arrive: nothing on the way can have wrapped. */
  lemma ArrivesAsMeant(m: seq<byte>, p: u32, end: u32, depth: nat)
    requires IsMemory(m) && end <= LAST_END && depth > Remaining(p, end) && SkipNode(m, p, end).Some?
    ensures WalkNode(m, p, end, depth).outcome == Done(SkipNode(m, p, end)) && !NodeWraps(m, p, end)
  {
    hide WalkNode, SkipNode, NodePassed, NodeWraps;
    NodeFollows(m, p, end, depth);
  }

  /** So every written tree is walked exactly, wherever it lies. */
  lemma EncodedWalk(m: seq<byte>, p: u32, end: u32, t: Tree, depth: nat)
    requires IsMemory(m) && end <= LAST_END && depth > Remaining(p, end) && Encodable(t) && AllCNames(t)
    requires At(m, p, Encode(t)) && p + |Encode(t)| <= end
    ensures WalkNode(m, p, end, depth).outcome == Done(Some(p + |Encode(t)|)) && !NodeWraps(m, p, end)
  {
    hide At, Encode, Encodable, AllCNames, WalkNode, SkipNode, NodeWraps, Parse, Stored;
    ParseEncoded(m, p, end, t);
    ArrivesAsMeant(m, p, end, depth);
  }

  // ----- without the guard -----

  const BACK_TO_NODE: u32 := 0xffff_ffd4

  /** One property without a name whose length leads from its value back to the node. */
  function LoopNode(nchildren: u32): (r: seq<byte>)
    ensures |r| == 44
  {
    Bytes32(1) + Bytes32(nchildren) + Zeros(32) + Bytes32(BACK_TO_NODE)
  }

  lemma LoopFields(m: seq<byte>, base: u32, nchildren: u32)
    requires IsMemory(m) && base + 44 < TWO32 && At(m, base, LoopNode(nchildren))
    ensures Load(m, base) == 1 && Load(m, base + 4) == nchildren && Load(m, base + 40) == BACK_TO_NODE
    ensures m[base + 8] == 0
    ensures Add32(base + 44, BACK_TO_NODE) == base && Add32(base + 44, Align4(BACK_TO_NODE)) == base
  {
    hide At, Bytes32, Load, Le32, Zeros, Align4;
    AtSplits(m, base, Bytes32(1) + Bytes32(nchildren) + Zeros(32), Bytes32(BACK_TO_NODE));
    AtSplits(m, base, Bytes32(1) + Bytes32(nchildren), Zeros(32));
    AtSplits(m, base, Bytes32(1), Bytes32(nchildren));
    WordAt(m, base, 1);
    WordAt(m, base + 4, nchildren);
    WordAt(m, base + 40, BACK_TO_NODE);
    LoadIsLe32(m, base);
    LoadIsLe32(m, base + 4);
    LoadIsLe32(m, base + 40);
    ZeroAt(m, base + 8);
    RoundUp4(BACK_TO_NODE);
    assert Align4(BACK_TO_NODE) == BACK_TO_NODE;
  }

  lemma ZeroAt(m: seq<byte>, o: nat)
    requires At(m, o, Zeros(32))
    ensures o < |m| && m[o] == 0
  {
    assert m[o..o + 32][0] == m[o];
  }

  lemma LoopProps(m: seq<byte>, base: u32, nchildren: u32)
    requires IsMemory(m) && base + 44 < TWO32 && At(m, base, LoopNode(nchildren))
    ensures WalkProps(m, base + 8, base + 44, 1) == Walk(Done(Some(base)), [base + 8, base + 44])
  {
    hide At, LoopNode, Load, Align4;
    LoopFields(m, base, nchildren);
    assert WalkProps(m, base, base + 44, 0) == Walk(Done(Some(base)), []);
  }

  /** With one child the walk comes back to its own node at every depth: it never ends, while the
      intended walk stops at the length. */
  lemma {:induction false} LoopNeverEnds(m: seq<byte>, base: u32, depth: nat)
    requires IsMemory(m) && base + 44 < TWO32 && At(m, base, LoopNode(1))
    ensures WalkNode(m, base, base + 44, depth).outcome == Running
    decreases depth
  {
    hide At, LoopNode, Load, Align4, WalkProps;
    if depth > 0 {
      LoopFields(m, base, 1);
      LoopProps(m, base, 1);
      LoopNeverEnds(m, base, depth - 1);
    }
  }

  /** With no child it arrives at its own start, which at address zero is no arrival. */
  lemma LoopComesBack(m: seq<byte>, base: u32, depth: nat)
    requires IsMemory(m) && base + 44 < TWO32 && At(m, base, LoopNode(0)) && depth > 0
    ensures WalkNode(m, base, base + 44, depth).outcome == if base == 0 then Done(None) else Done(Some(base))
  {
    hide At, LoopNode, Load, Align4, WalkProps;
    LoopFields(m, base, 0);
    LoopProps(m, base, 0);
  }

  /** The intended walk rejects both. */
  lemma LoopIsRejected(m: seq<byte>, base: u32, nchildren: u32)
    requires IsMemory(m) && base + 44 < TWO32 && At(m, base, LoopNode(nchildren))
    ensures SkipNode(m, base, base + 44) == None && NodeWraps(m, base, base + 44)
  {
    hide At, LoopNode, Load, Align4, Le32;
    LoopFields(m, base, nchildren);
    LoadIsLe32(m, base);
    LoadIsLe32(m, base + 40);
  }

  /** The lookups pass its properties without any test of a value's end, back to the node. */
  lemma LoopPasses(m: seq<byte>, base: u32, nchildren: u32)
    requires IsMemory(m) && base + 44 < TWO32 && At(m, base, LoopNode(nchildren))
    ensures PassProps(m, base + 8, base + 44, 1) == Some(base)
  {
    hide At, LoopNode, Load, Align4;
    LoopFields(m, base, nchildren);
    assert PassProps(m, base, base + 44, 0) == Some(base);
  }

  lemma LoopIsUnnamed(m: seq<byte>, base: u32, nchildren: u32, key: seq<byte>)
    requires IsMemory(m) && base + 44 < TWO32 && At(m, base, LoopNode(nchildren))
    ensures !NodeHasName(m, base, base + 44, key)
  {
    hide At, LoopNode, Load, Align4, StringAt;
    LoopFields(m, base, nchildren);
    NotTheName(m, base + 8);
    assert !HasNameFrom(m, base, base + 44, 0, key);
  }

  lemma NotTheName(m: seq<byte>, o: u32)
    requires IsMemory(m) && m[o] == 0
    ensures !StringAt(m, o, NAME_KEY)
  {
    assert NAME_KEY[0] == 0x6e && m[Wrap(o + 0)] == 0;
  }

  /** One child of the search. */
  lemma FindStep(m: seq<byte>, p: u32, end: u32, n: nat, key: seq<byte>, depth: nat)
    requires IsMemory(m)
    ensures FindFrom(m, p, end, n, key, depth) ==
            if n == 0 then Done(None)
            else if NodeHasName(m, p, end, key) then Returned(Done(Some(p)))
            else
              var q := WalkNode(m, p, end, depth).outcome;
              if !Arrived(q) then q else FindFrom(m, q.at.value, end, n - 1, key, depth)
  {
    hide NodeHasName, WalkNode;
  }

  /** Looking for a child there never ends either: back at the node, it is its own first child. */
  lemma LookupNeverEnds(m: seq<byte>, base: u32, key: seq<byte>, depth: nat)
    requires IsMemory(m) && base + 44 < TWO32 && At(m, base, LoopNode(1))
    ensures FindChild(m, base, base + 44, key, depth) == Running
  {
    hide At, LoopNode, Load, Add32, WalkNode, PassProps, NodeHasName, FindFrom;
    SmallSum(base, 8);
    SmallSum(base, 4);
    LoopFields(m, base, 1);
    LoopPasses(m, base, 1);
    LoopIsUnnamed(m, base, 1, key);
    LoopNeverEnds(m, base, depth);
    FindStep(m, base, base + 44, 1, key, depth);
  }
}
