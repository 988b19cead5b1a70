/** Lookups in arbitrary memory: the search that is meant, over positions that do not wrap, and when the
    32-bit search is that one. */
module DeviceTreeSeek {
  import opened Words
  import opened Runtime
  import opened DeviceTree
  import opened DeviceTreeTheorems
  import opened DeviceTreeWalk
  import opened DeviceTreeWrap

  // ----- the search that is meant -----

  /** Past `n` properties by their lengths alone. */
  function SeekProps(m: seq<byte>, p: nat, end: u32, n: nat): (r: Option<nat>)
    requires IsMemory(m)
    ensures r.Some? ==> p + 36 * n <= r.value
    decreases n
  {
    if n == 0 then Some(p)
    else if p + 36 > end then None
    else
      var len := Le32(m, p + 32);
      SeekProps(m, p + 36 + len + Padding(len), end, n - 1)
  }

  predicate NamedHere(m: seq<byte>, p: nat, len: u32, key: seq<byte>)
    requires IsMemory(m) && p + 36 < TWO32
  {
    StringAt(m, p, NAME_KEY) && len > 0 && StringAt(m, p + 36, key)
  }

  predicate SeekName(m: seq<byte>, p: nat, end: u32, n: nat, key: seq<byte>)
    requires IsMemory(m)
    decreases n
  {
    n > 0 && p + 36 <= end &&
    var len := Le32(m, p + 32);
    p + 36 + len <= end && (NamedHere(m, p, len, key) || SeekName(m, p + 36 + Align4(len), end, n - 1, key))
  }

  predicate SeekNode(m: seq<byte>, p: nat, end: u32, key: seq<byte>)
    requires IsMemory(m)
  {
    p + 8 <= end && SeekName(m, p + 8, end, Le32(m, p), key)
  }

  function SeekFrom(m: seq<byte>, p: nat, end: u32, n: nat, key: seq<byte>): (r: Option<nat>)
    requires IsMemory(m)
    ensures r.Some? ==> p <= r.value && r.value + 8 <= end && SeekNode(m, r.value, end, key)
    decreases n
  {
    if n == 0 then None
    else if SeekNode(m, p, end, key) then Some(p)
    else
      hide SeekNode;
      var q := SkipNode(m, p, end);
      if q.None? then None else SeekFrom(m, q.value, end, n - 1, key)
  }

  /** What is found lies behind the node's own header and has its header in the buffer. */
  function SeekChild(m: seq<byte>, node: nat, end: u32, key: seq<byte>): (r: Option<nat>)
    requires IsMemory(m)
    ensures r.Some? ==> node + 8 <= r.value && r.value + 8 <= end && SeekNode(m, r.value, end, key)
  {
    if node + 8 > end then None
    else
      var p := SeekProps(m, node + 8, end, Le32(m, node));
      if p.None? then None else SeekFrom(m, p.value, end, Le32(m, node + 4), key)
  }

  function SeekProp(m: seq<byte>, p: nat, end: u32, n: nat, key: seq<byte>): (r: Option<Found>)
    requires IsMemory(m)
    ensures r.Some? ==> p + 36 <= r.value.pos && r.value.pos + r.value.len <= end
    decreases n
  {
    if n == 0 || p + 36 > end then None
    else
      var len := Le32(m, p + 32);
      if p + 36 + len > end then None
      else if StringAt(m, p, key) then Some(Found(p + 36, len))
      else SeekProp(m, p + 36 + Align4(len), end, n - 1, key)
  }

  // ----- the sums on its way -----

  /** Passing by the lengths alone leaves the address space. */
  predicate PassWraps(m: seq<byte>, p: u32, end: u32, n: nat)
    requires IsMemory(m)
    decreases n
  {
    n > 0 &&
    if p + 36 >= TWO32 then p + 36 - TWO32 <= end
    else
      p + 36 <= end &&
      var next := p + 36 + Le32(m, p + 32) + Padding(Le32(m, p + 32));
      next >= TWO32 || PassWraps(m, next, end, n - 1)
  }

  /** A header wraps before the name is found. */
  predicate NameWraps(m: seq<byte>, p: nat, end: u32, n: nat, key: seq<byte>)
    requires IsMemory(m)
    decreases n
  {
    n > 0 &&
    (HeaderWraps(m, p, end) ||
     (p + 36 <= end && p + 36 + Le32(m, p + 32) <= end && !NamedHere(m, p, Le32(m, p + 32), key) &&
      NameWraps(m, p + 36 + Align4(Le32(m, p + 32)), end, n - 1, key)))
  }

  /** Of the children up to the one found, one wraps; of the one found only what is read for its name. */
  predicate SeekWraps(m: seq<byte>, p: nat, end: u32, n: nat, key: seq<byte>)
    requires IsMemory(m)
    decreases n
  {
    n > 0 &&
    if SeekNode(m, p, end, key) then NameWraps(m, p + 8, end, Le32(m, p), key)
    else NodeWraps(m, p, end) || (SkipNode(m, p, end).Some? && SeekWraps(m, SkipNode(m, p, end).value, end, n - 1, key))
  }

  predicate LookupWraps(m: seq<byte>, node: u32, end: u32, key: seq<byte>)
    requires IsMemory(m)
  {
    if node + 8 >= TWO32 then node + 8 - TWO32 <= end
    else
      node + 8 <= end &&
      (PassWraps(m, node + 8, end, Le32(m, node)) ||
       (SeekProps(m, node + 8, end, Le32(m, node)).Some? &&
        SeekWraps(m, SeekProps(m, node + 8, end, Le32(m, node)).value, end, Le32(m, node + 4), key)))
  }

  // ----- without a wrap the 32-bit search is the one that is meant -----

  lemma {:induction false} PassFollows(m: seq<byte>, p: u32, end: u32, n: nat)
    requires IsMemory(m) && end <= LAST_END && !PassWraps(m, p, end, n)
    ensures PassProps(m, p, end, n) == SeekProps(m, p, end, n)
    decreases n
  {
    hide Load, Le32, Align4, Padding, Add32;
    SmallSum(p, 36);
    if n > 0 && p + 36 <= end {
      SmallSum(p, 32);
      LoadIsLe32(m, p + 32);
      var len := Le32(m, p + 32);
      PadBelow(p + 36, len);
      SmallSum(p + 36, Align4(len));
      PassFollows(m, p + 36 + len + Padding(len), end, n - 1);
    }
  }

  lemma PadBelow(value: nat, len: u32)
    requires value + len + Padding(len) < TWO32
    ensures Align4(len) == len + Padding(len)
  {
    hide Align4;
    if len <= 0xffff_fffc {
      PadLength(len);
    }
  }

  lemma {:induction false} NameFollows(m: seq<byte>, p: u32, end: u32, n: nat, key: seq<byte>)
    requires IsMemory(m) && end <= LAST_END && !NameWraps(m, p, end, n, key)
    ensures HasNameFrom(m, p, end, n, key) <==> SeekName(m, p, end, n, key)
    decreases n
  {
    hide Load, Le32, Align4, Add32, StringAt;
    SmallSum(p, 36);
    if n > 0 && p + 36 <= end {
      SmallSum(p, 32);
      LoadIsLe32(m, p + 32);
      var len := Le32(m, p + 32);
      SmallSum(p + 36, len);
      if p + 36 + len <= end {
        NextProp(p, len, end);
        SmallSum(p + 36, Align4(len));
        if !NamedHere(m, p, len, key) {
          NameFollows(m, p + 36 + Align4(len), end, n - 1, key);
        }
      }
    }
  }

  lemma {:induction false} NameWrapsInside(m: seq<byte>, p: nat, end: u32, n: nat, key: seq<byte>)
    requires IsMemory(m) && NameWraps(m, p, end, n, key)
    ensures PropsWrap(m, p, end, n)
    decreases n
  {
    hide Le32, Align4, HeaderWraps, NamedHere;
    if !HeaderWraps(m, p, end) {
      NameWrapsInside(m, p + 36 + Align4(Le32(m, p + 32)), end, n - 1, key);
    }
  }

  lemma NodeNameFollows(m: seq<byte>, p: u32, end: u32, key: seq<byte>)
    requires IsMemory(m) && end <= LAST_END
    requires if SeekNode(m, p, end, key) then !NameWraps(m, p + 8, end, Le32(m, p), key) else !NodeWraps(m, p, end)
    ensures NodeHasName(m, p, end, key) <==> SeekNode(m, p, end, key)
  {
    hide Load, Le32, Add32, PropsWrap, ChildrenWrap, NameWraps, SeekName, HasNameFrom;
    SmallSum(p, 8);
    if p + 8 <= end {
      LoadIsLe32(m, p);
      if NameWraps(m, p + 8, end, Le32(m, p), key) {
        NameWrapsInside(m, p + 8, end, Le32(m, p), key);
      }
      NameFollows(m, p + 8, end, Le32(m, p), key);
    }
  }

  lemma {:induction false} FindFollows(m: seq<byte>, p: u32, end: u32, n: nat, key: seq<byte>, depth: nat)
    requires IsMemory(m) && 0 < p && end <= LAST_END && depth > Remaining(p, end) && !SeekWraps(m, p, end, n, key)
    ensures FindFrom(m, p, end, n, key, depth) == Done(SeekFrom(m, p, end, n, key))
    decreases n
  {
    hide NodeHasName, SeekNode, NodeWraps, WalkNode, SkipNode, NodePassed, NameWraps;
    if n > 0 {
      NodeNameFollows(m, p, end, key);
      if !SeekNode(m, p, end, key) {
        WalkExactly(m, p, end, depth);
        var q := SkipNode(m, p, end);
        if q.Some? {
          FindFollows(m, q.value, end, n - 1, key, depth);
        }
      }
    }
  }

  /** Finding a child returns the first child with the name in sibling order, or none, in every memory
      in which no sum on the way wraps. */
  lemma FindChildFollows(m: seq<byte>, node: u32, end: u32, key: seq<byte>, depth: nat)
    requires IsMemory(m) && end <= LAST_END && depth > Remaining(node, end) && !LookupWraps(m, node, end, key)
    ensures FindChild(m, node, end, key, depth) == Done(SeekChild(m, node, end, key))
  {
    hide Load, Le32, Add32, PassWraps, SeekWraps, PassProps, SeekProps, FindFrom, SeekFrom;
    SmallSum(node, 8);
    SmallSum(node, 4);
    if node + 8 <= end {
      LoadIsLe32(m, node);
      LoadIsLe32(m, node + 4);
      PassFollows(m, node + 8, end, Le32(m, node));
      var p := PassProps(m, node + 8, end, Le32(m, node));
      if p.Some? {
        FindFollows(m, p.value, end, Le32(m, node + 4), key, depth);
      }
    }
  }

  lemma {:induction false} PropFollows(m: seq<byte>, p: u32, end: u32, n: nat, key: seq<byte>)
    requires IsMemory(m) && end <= LAST_END && !PropsWrap(m, p, end, n)
    ensures GetPropFrom(m, p, end, n, key) == SeekProp(m, p, end, n, key)
    decreases n
  {
    hide Load, Le32, Align4, Add32, StringAt;
    SmallSum(p, 36);
    if n > 0 && p + 36 <= end {
      SmallSum(p, 32);
      LoadIsLe32(m, p + 32);
      var len := Le32(m, p + 32);
      SmallSum(p + 36, len);
      if p + 36 + len <= end {
        NextProp(p, len, end);
        SmallSum(p + 36, Align4(len));
        PropFollows(m, p + 36 + Align4(len), end, n - 1, key);
      }
    }
  }

  /** Getting a property of a node that does not wrap returns the first of the name, inside the buffer. */
  lemma GetPropFollows(m: seq<byte>, node: u32, end: u32, key: seq<byte>)
    requires IsMemory(m) && end <= LAST_END && !NodeWraps(m, node, end)
    ensures GetProp(m, node, end, key) ==
            if node + 8 > end then None else SeekProp(m, node + 8, end, Le32(m, node), key)
  {
    hide Load, Le32, Add32, PropsWrap, ChildrenWrap, GetPropFrom, SeekProp;
    SmallSum(node, 8);
    if node + 8 <= end {
      LoadIsLe32(m, node);
      PropFollows(m, node + 8, end, Le32(m, node), key);
    }
  }

  /** A wrap need not show in the result: on the loop node without a child the pointer comes back to the
      node, and nothing is found either way. */
  lemma WrappedMayAgree(m: seq<byte>, base: u32, key: seq<byte>, depth: nat)
    requires IsMemory(m) && base + 44 < TWO32 && At(m, base, LoopNode(0))
    ensures LookupWraps(m, base, base + 44, key)
    ensures FindChild(m, base, base + 44, key, depth) == Done(SeekChild(m, base, base + 44, key)) == Done(None)
  {
    hide At, LoopNode, Load, Le32, PassWraps, FindChild, SeekChild;
    LoopFields(m, base, 0);
    LoadIsLe32(m, base);
    LoadIsLe32(m, base + 4);
    LoopWraps(m, base);
    NoneFound(m, base, base + 44, key, depth);
  }

  /** Without children both searches come back with nothing. */
  lemma NoneFound(m: seq<byte>, node: u32, end: u32, key: seq<byte>, depth: nat)
    requires IsMemory(m) && node + 8 < TWO32 && Load(m, node + 4) == 0
    ensures FindChild(m, node, end, key, depth) == Done(None) && SeekChild(m, node, end, key) == None
  {
    hide Load, Le32, Add32, PassProps, SeekProps, SeekNode, SkipNode, NodeHasName, WalkNode;
    SmallSum(node, 4);
    LoadIsLe32(m, node + 4);
  }

  lemma LoopWraps(m: seq<byte>, base: u32)
    requires IsMemory(m) && base + 44 < TWO32 && At(m, base, LoopNode(0))
    ensures PassWraps(m, base + 8, base + 44, 1)
  {
    hide At, LoopNode, Load, Le32, Padding;
    LoopFields(m, base, 0);
    LoadIsLe32(m, base + 40);
  }
}
