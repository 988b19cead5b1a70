/** Lookups in a built buffer are lookups in the abstract tree. */
module DeviceTreeLookup {
  import opened Words
  import opened Runtime
  import opened DeviceTree
  import opened DeviceTreeTheorems
  import opened DeviceTreeWalk
  import opened DeviceTreeWrap

  // ----- string comparison -----

  /** Against bytes that hold a terminator, strcmp succeeds exactly when the characters before the
      first terminator are the key. */
  lemma StringAtChars(m: seq<byte>, q: u32, field: seq<byte>, key: seq<byte>)
    requires IsMemory(m) && At(m, q, field) && 0 in field && IsCString(key)
    ensures StringAt(m, q, key) <==> CharsOf(field) == key
  {
    hide CharsOf;
    var s := CharsOf(field);
    ZeroStops(field);
    forall i | 0 <= i < |field|
      ensures m[Wrap(q + i)] == field[i]
    {
      assert m[q..q + |field|][i] == m[q + i];
    }
    assert |key| > |s| ==> m[Wrap(q + |s|)] == 0 && key[|s|] != 0;
    assert |key| < |s| ==> m[Wrap(q + |key|)] == s[|key|] != 0;
    if StringAt(m, q, key) {
      assert s == key;
    }
  }

  lemma {:induction false} ZeroStops(field: seq<byte>)
    requires 0 in field
    ensures |CharsOf(field)| < |field|
  {
    if field[0] != 0 {
      assert field == [field[0]] + field[1..];
      ZeroStops(field[1..]);
    }
  }

  lemma StringAtName(m: seq<byte>, p: u32, name: seq<byte>, key: seq<byte>)
    requires IsMemory(m) && At(m, p, NameField(name)) && IsCString(name) && IsCString(key)
    ensures StringAt(m, p, key) <==> Short(name) == key
  {
    hide CharsOf, At, StringAt;
    StoredName(name);
    assert NameField(name)[31] == 0;
    StringAtChars(m, p, NameField(name), key);
  }

  // ----- names of nodes -----

  predicate NamesNode(p: Prop, key: seq<byte>) {
    Short(p.name) == NAME_KEY && p.value != [] && CharsOf(p.value) == key
  }

  predicate HasName(t: Tree, key: seq<byte>) {
    exists p :: p in t.props && NamesNode(p, key)
  }

  /** Non-empty "name" properties hold strings. */
  predicate StringNames(ps: seq<Prop>) {
    forall p :: p in ps && Short(p.name) == NAME_KEY && p.value != [] ==> 0 in p.value
  }

  predicate Lookable(ps: seq<Prop>) {
    CNames(ps) && StringNames(ps) && forall p :: p in ps ==> |p.value| < TWO32
  }

  /** One step past an encoded property, as the walkers take it: none of its sums wraps. */
  lemma EncodedPropStep(m: seq<byte>, p: u32, end: u32, prop: Prop)
    requires IsMemory(m) && |prop.value| < TWO32 && At(m, p, EncodeProp(prop)) && p + |EncodeProp(prop)| <= end
    ensures Add32(p, 36) == p + 36 <= end && Load(m, Add32(p, 32)) == |prop.value|
    ensures Add32(p + 36, |prop.value|) == p + 36 + |prop.value| <= end
    ensures At(m, p, NameField(prop.name)) && At(m, p + 36, prop.value)
    ensures Add32(p + 36, Align4(|prop.value|)) == p + |EncodeProp(prop)|
  {
    hide At, EncodeProp, NameField, Le32, Load, Align4, Padding, Add32;
    PropAt(m, p, prop);
    ValueFits(prop, p, end);
    SmallSum(p, 36);
    SmallSum(p, 32);
    LoadIsLe32(m, p + 32);
    SmallSum(p + 36, |prop.value|);
    SmallSum(p + 36, Align4(|prop.value|));
  }

  predicate SomeNames(ps: seq<Prop>, key: seq<byte>) {
    exists q :: q in ps && NamesNode(q, key)
  }

  lemma SomeNamesStep(ps: seq<Prop>, key: seq<byte>)
    ensures SomeNames(ps, key) <==> ps != [] && (NamesNode(ps[0], key) || SomeNames(ps[1..], key))
  {
    hide NamesNode;
    if ps != [] {
      assert ps == [ps[0]] + ps[1..];
      assert ps[0] in ps;
    }
  }

  /** The test the walker makes on an encoded property is the abstract one. */
  lemma EncodedPropNames(m: seq<byte>, p: u32, prop: Prop, key: seq<byte>)
    requires IsMemory(m) && p + 36 < TWO32
    requires IsCString(prop.name) && IsCString(key) && IsCString(NAME_KEY)
    requires Short(prop.name) == NAME_KEY && prop.value != [] ==> 0 in prop.value
    requires At(m, p, NameField(prop.name)) && At(m, p + 36, prop.value)
    ensures StringAt(m, p, NAME_KEY) && |prop.value| > 0 && StringAt(m, p + 36, key) <==> NamesNode(prop, key)
  {
    hide At, NameField, StringAt, CharsOf, Short;
    StringAtName(m, p, prop.name, NAME_KEY);
    if Short(prop.name) == NAME_KEY && prop.value != [] {
      StringAtChars(m, p + 36, prop.value, key);
    }
  }

  lemma LookableSplit(ps: seq<Prop>)
    requires ps != [] && Lookable(ps)
    ensures IsCString(ps[0].name) && |ps[0].value| < TWO32 && Lookable(ps[1..]) && IsCString(NAME_KEY)
    ensures Short(ps[0].name) == NAME_KEY && ps[0].value != [] ==> 0 in ps[0].value
  {
    hide Short;
    assert ps[0] in ps;
  }

  lemma {:induction false} EncodedNames(m: seq<byte>, p: u32, end: u32, ps: seq<Prop>, key: seq<byte>)
    requires IsMemory(m) && Lookable(ps) && IsCString(key)
    requires At(m, p, EncodeProps(ps)) && p + |EncodeProps(ps)| <= end
    ensures HasNameFrom(m, p, end, |ps|, key) <==> SomeNames(ps, key)
    decreases |ps|
  {
    hide At, EncodeProp, NameField, Load, Add32, Align4, Padding, StringAt, SomeNames, NamesNode;
    SomeNamesStep(ps, key);
    if ps != [] {
      LookableSplit(ps);
      AtSplits(m, p, EncodeProp(ps[0]), EncodeProps(ps[1..]));
      EncodedPropStep(m, p, end, ps[0]);
      EncodedPropNames(m, p, ps[0], key);
      EncodedNames(m, p + |EncodeProp(ps[0])|, end, ps[1..], key);
    }
  }

  /** The pieces of an encoded node. */
  lemma NodeAt(b: seq<byte>, p: nat, t: Tree)
    requires Encodable(t) && At(b, p, Encode(t))
    ensures Le32(b, p) == |t.props| && Le32(b, p + 4) == |t.children|
    ensures At(b, p + 8, EncodeProps(t.props)) && At(b, p + 8 + |EncodeProps(t.props)|, EncodeAll(t.children))
  {
    hide At, EncodeProps, EncodeAll, Le32;
    var nprops, nchildren := Bytes32(|t.props|), Bytes32(|t.children|);
    var props, children := EncodeProps(t.props), EncodeAll(t.children);
    AtSplits(b, p, nprops + nchildren + props, children);
    AtSplits(b, p, nprops + nchildren, props);
    AtSplits(b, p, nprops, nchildren);
    WordAt(b, p, |t.props|);
    WordAt(b, p + 4, |t.children|);
  }

  lemma NodeHere(m: seq<byte>, p: u32, end: u32, t: Tree)
    requires IsMemory(m) && Encodable(t) && At(m, p, Encode(t)) && p + |Encode(t)| <= end
    ensures Add32(p, 8) == p + 8 <= end && Load(m, p) == |t.props| && Load(m, Add32(p, 4)) == |t.children|
    ensures At(m, p + 8, EncodeProps(t.props)) && At(m, p + 8 + |EncodeProps(t.props)|, EncodeAll(t.children))
    ensures p + 8 + |EncodeProps(t.props)| + |EncodeAll(t.children)| <= end
  {
    hide At, EncodeProps, EncodeAll, Le32, Load, Add32;
    NodeAt(m, p, t);
    SmallSum(p, 8);
    SmallSum(p, 4);
    LoadIsLe32(m, p);
    LoadIsLe32(m, p + 4);
  }

  lemma NodeNameRefines(m: seq<byte>, p: u32, end: u32, t: Tree, key: seq<byte>)
    requires IsMemory(m) && Encodable(t) && Lookable(t.props) && IsCString(key)
    requires At(m, p, Encode(t)) && p + |Encode(t)| <= end
    ensures NodeHasName(m, p, end, key) <==> HasName(t, key)
  {
    hide At, EncodeProps, EncodeAll, HasNameFrom, NamesNode, Load, Add32;
    NodeHere(m, p, end, t);
    EncodedNames(m, p + 8, end, t.props, key);
  }

  // ----- children -----

  predicate AllLookable(ts: seq<Tree>) {
    forall t :: t in ts ==> Lookable(t.props)
  }

  /** The first child in sibling order with the name. */
  function FirstNamed(ts: seq<Tree>, key: seq<byte>): (r: Option<nat>)
    ensures r.Some? ==> r.value < |ts| && HasName(ts[r.value], key)
                        && forall i :: 0 <= i < r.value ==> !HasName(ts[i], key)
    ensures r.None? ==> forall t :: t in ts ==> !HasName(t, key)
  {
    if ts == [] then None
    else if HasName(ts[0], key) then Some(0)
    else
      var r := FirstNamed(ts[1..], key);
      if r.None? then None else Some(r.value + 1)
  }

  /** How far the k-th child starts after the first. */
  function ChildOffset(ts: seq<Tree>, k: nat): nat
    requires AllEncodable(ts) && k <= |ts|
    decreases k
  {
    if k == 0 then 0 else |Encode(ts[0])| + ChildOffset(ts[1..], k - 1)
  }

  lemma FirstStep(ts: seq<Tree>, key: seq<byte>)
    ensures ts == [] ==> FirstNamed(ts, key) == None
    ensures ts != [] ==> FirstNamed(ts, key) ==
                         if HasName(ts[0], key) then Some(0)
                         else if FirstNamed(ts[1..], key).None? then None
                         else Some(FirstNamed(ts[1..], key).value + 1)
  {
    hide HasName;
  }

  lemma {:induction false} FindAmong(m: seq<byte>, p: u32, end: u32, ts: seq<Tree>, key: seq<byte>, depth: nat)
    requires IsMemory(m) && 0 < p && end <= LAST_END && depth > Remaining(p, end)
    requires AllEncodable(ts) && ForestCNames(ts) && AllLookable(ts) && IsCString(key)
    requires At(m, p, EncodeAll(ts)) && p + |EncodeAll(ts)| <= end
    ensures FindFrom(m, p, end, |ts|, key, depth) ==
            var k := FirstNamed(ts, key);
            Done(if k.None? then None else Some(p + ChildOffset(ts, k.value)))
    decreases |ts|
  {
    hide At, Encode, Encodable, NodeHasName, HasName, WalkNode, NodeWraps, Lookable, AllCNames, FindFrom, FirstNamed,
         IsCString;
    FindStep(m, p, end, |ts|, key, depth);
    FirstStep(ts, key);
    if ts != [] {
      AtSplits(m, p, Encode(ts[0]), EncodeAll(ts[1..]));
      NodeNameRefines(m, p, end, ts[0], key);
      EncodedWalk(m, p, end, ts[0], depth);
      FindAmong(m, p + |Encode(ts[0])|, end, ts[1..], key, depth);
    }
  }

  lemma {:induction false} PassEncodedProps(m: seq<byte>, p: u32, end: u32, ps: seq<Prop>)
    requires IsMemory(m) && forall q :: q in ps ==> |q.value| < TWO32
    requires At(m, p, EncodeProps(ps)) && p + |EncodeProps(ps)| <= end
    ensures PassProps(m, p, end, |ps|) == Some(p + |EncodeProps(ps)|)
    decreases |ps|
  {
    hide At, EncodeProp, NameField, Load, Add32, Align4, Padding;
    if ps != [] {
      AtSplits(m, p, EncodeProp(ps[0]), EncodeProps(ps[1..]));
      EncodedPropStep(m, p, end, ps[0]);
      PassEncodedProps(m, p + |EncodeProp(ps[0])|, end, ps[1..]);
    }
  }

  /** Where the k-th child of a node at `p` starts. */
  function ChildStart(p: nat, t: Tree, k: nat): nat
    requires Encodable(t) && k <= |t.children|
  {
    p + 8 + |EncodeProps(t.props)| + ChildOffset(t.children, k)
  }

  /** Finding a child by name returns the start of the first child that has the name, or none. */
  lemma FindChildRefines(m: seq<byte>, p: u32, end: u32, t: Tree, key: seq<byte>, depth: nat)
    requires IsMemory(m) && end <= LAST_END && depth > Remaining(p, end)
    requires Encodable(t) && AllCNames(t) && AllLookable(t.children) && IsCString(key)
    requires At(m, p, Encode(t)) && p + |Encode(t)| <= end
    ensures FindChild(m, p, end, key, depth) ==
            var k := FirstNamed(t.children, key);
            Done(if k.None? then None else Some(ChildStart(p, t, k.value)))
  {
    hide At, EncodeProps, EncodeAll, PassProps, FindFrom, FirstNamed, ChildOffset, ForestCNames, AllLookable,
         Load, Add32;
    NodeHere(m, p, end, t);
    PassEncodedProps(m, p + 8, end, t.props);
    FindAmong(m, p + 8 + |EncodeProps(t.props)|, end, t.children, key, depth);
  }

  /** And what starts there is that child, so lookups can be repeated below it. */
  lemma {:induction false} ChildAt(b: seq<byte>, p: nat, ts: seq<Tree>, k: nat)
    requires AllEncodable(ts) && k < |ts| && At(b, p, EncodeAll(ts))
    ensures Encodable(ts[k]) && At(b, p + ChildOffset(ts, k), Encode(ts[k]))
    ensures ChildOffset(ts, k) + |Encode(ts[k])| <= |EncodeAll(ts)|
    decreases k
  {
    hide At, Encode, Encodable;
    AtSplits(b, p, Encode(ts[0]), EncodeAll(ts[1..]));
    if k > 0 {
      ChildAt(b, p + |Encode(ts[0])|, ts[1..], k - 1);
    }
  }

  // ----- properties -----

  function FirstProp(ps: seq<Prop>, key: seq<byte>): (r: Option<nat>)
    ensures r.Some? ==> r.value < |ps| && Short(ps[r.value].name) == key
                        && forall i :: 0 <= i < r.value ==> Short(ps[i].name) != key
    ensures r.None? ==> forall p :: p in ps ==> Short(p.name) != key
  {
    if ps == [] then None
    else if Short(ps[0].name) == key then Some(0)
    else
      var r := FirstProp(ps[1..], key);
      if r.None? then None else Some(r.value + 1)
  }

  lemma {:induction false} GetAmong(m: seq<byte>, p: u32, end: u32, ps: seq<Prop>, key: seq<byte>)
    requires IsMemory(m) && CNames(ps) && IsCString(key) && forall q :: q in ps ==> |q.value| < TWO32
    requires At(m, p, EncodeProps(ps)) && p + |EncodeProps(ps)| <= end
    ensures var k, r := FirstProp(ps, key), GetPropFrom(m, p, end, |ps|, key);
            if k.None? then r.None?
            else r.Some? && r.value.len == |ps[k.value].value| && At(m, r.value.pos, ps[k.value].value)
    decreases |ps|
  {
    hide At, EncodeProp, NameField, Load, Add32, Align4, Padding, StringAt, Short;
    if ps != [] {
      var prop := ps[0];
      AtSplits(m, p, EncodeProp(prop), EncodeProps(ps[1..]));
      EncodedPropStep(m, p, end, prop);
      StringAtName(m, p, prop.name, key);
      GetAmong(m, p + |EncodeProp(prop)|, end, ps[1..], key);
    }
  }

  /** Getting a property returns the first one with that name: its exact length and its bytes. */
  lemma GetPropRefines(m: seq<byte>, p: u32, end: u32, t: Tree, key: seq<byte>)
    requires IsMemory(m) && Encodable(t) && CNames(t.props) && IsCString(key)
    requires At(m, p, Encode(t)) && p + |Encode(t)| <= end
    ensures var k, r := FirstProp(t.props, key), GetProp(m, p, end, key);
            if k.None? then r.None?
            else r.Some? && r.value.len == |t.props[k.value].value| && At(m, r.value.pos, t.props[k.value].value)
  {
    hide At, EncodeProps, EncodeAll, GetPropFrom, FirstProp, Load, Add32;
    NodeHere(m, p, end, t);
    GetAmong(m, p + 8, end, t.props, key);
  }

  /** The word of a property is the first word of its value, when it is the first property of that name;
      without such a property, or with a shorter value, the fallback comes back. So a word written as four
      bytes is the word read back. */
  lemma GetU32Refines(m: seq<byte>, p: u32, end: u32, t: Tree, key: seq<byte>, fallback: u32, v: u32)
    requires IsMemory(m) && Encodable(t) && CNames(t.props) && IsCString(key)
    requires At(m, p, Encode(t)) && p + |Encode(t)| <= end
    ensures var k := FirstProp(t.props, key);
            && (k.Some? && |t.props[k.value].value| >= 4 ==>
                  GetU32(m, p, end, key, fallback) == Le32(t.props[k.value].value, 0))
            && (k.Some? && t.props[k.value].value == Bytes32(v) ==> GetU32(m, p, end, key, fallback) == v)
            && (k.None? || |t.props[k.value].value| < 4 ==> GetU32(m, p, end, key, fallback) == fallback)
  {
    hide At, GetProp, FirstProp, Le32, Load;
    GetPropRefines(m, p, end, t, key);
    var k := FirstProp(t.props, key);
    if k.Some? && |t.props[k.value].value| >= 4 {
      FirstWordAt(m, GetProp(m, p, end, key).value.pos, t.props[k.value].value);
      LoadIsLe32(m, GetProp(m, p, end, key).value.pos);
    }
  }

  lemma FirstWordAt(m: seq<byte>, o: nat, value: seq<byte>)
    requires At(m, o, value) && |value| >= 4
    ensures o + 4 <= |m| && Le32(m, o) == Le32(value, 0)
  {
    hide Le32;
    assert m[o..o + 4] == m[o..o + |value|][..4] == value[0..4];
    Le32Frame(m, o, value, 0);
  }
}
