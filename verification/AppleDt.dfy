/** The device-tree builder and walkers as the payload runs them. */
module AppleDt {
  import opened Words
  import opened Runtime
  import opened DeviceTree
  import opened DeviceTreeWalk

  class DtBuilder {
    const base: array<byte>
    const capacity: u32
    var pos: u32
    var error: bool

    ghost predicate Valid()
      reads this
    {
      capacity <= base.Length && pos <= capacity
    }

    function View(): (r: Builder)
      reads this, base
      requires Valid()
      ensures Sane(r)
    {
      Builder(base[..pos], capacity, error)
    }

    /** `apple_dt_begin`: the buffer is taken over and cleared. */
    constructor (buf: array<byte>, cap: u32)
      requires cap <= buf.Length
      modifies buf
      ensures Valid() && base == buf && capacity == cap
      ensures View() == Builder([], cap, false)
      ensures buf[..] == Zeros(cap) + old(buf[cap..])
    {
      base, capacity, pos, error := buf, cap, 0, false;
      new;
      MemSet(buf, 0, 0, cap);
    }

    /** Appends when the bytes fit; the first that do not fit set the flag for good. The C sum does
        not wrap because source and buffer are separate objects of one 32-bit address space. */
    method WriteBytes(src: seq<byte>)
      requires Valid() && pos + |src| < TWO32
      modifies this`pos, this`error, base
      ensures Valid() && View() == Write(old(View()), src)
      ensures base[pos..] == old(base[..])[pos..]
    {
      if error {
        return;
      }
      if Add32(pos, |src|) > capacity {
        error := true;
        return;
      }
      MemCpy(base, pos, src);
      pos := pos + |src|;
      assert base[..pos] == old(base[..pos]) + src;
    }

    method PadToWord()
      requires Valid()
      modifies this`pos, this`error, base
      ensures Valid() && View() == Pad(old(View()))
      ensures base[pos..] == old(base[..])[pos..]
    {
      hide Write;
      var aligned := Align4(pos);
      if aligned > pos {
        WriteBytes(Zeros(aligned - pos));
      }
    }

    method BeginNode(nprops: u32, nchildren: u32)
      requires Valid() && pos + 8 < TWO32
      modifies this`pos, this`error, base
      ensures Valid() && View() == NodeBegin(old(View()), nprops, nchildren)
    {
      WriteBytes(Bytes32(nprops) + Bytes32(nchildren));
    }

    /** The 32-byte name field: at most 31 characters are copied into zeros. */
    method MakeName(name: seq<byte>) returns (field: seq<byte>)
      ensures field == NameField(name)
    {
      field := Zeros(32);
      var i := 0;
      while i < 31 && i < |name|
        invariant 0 <= i <= 31 && i <= |name|
        invariant field == name[..i] + Zeros(32 - i)
      {
        assert Zeros(32 - i)[1..] == Zeros(32 - (i + 1));
        field := field[i := name[i]];
        i := i + 1;
      }
    }

    method Property(name: seq<byte>, value: seq<byte>)
      requires Valid() && pos + 36 + |value| < TWO32
      modifies this`pos, this`error, base
      ensures Valid() && View() == AddProp(old(View()), name, value)
    {
      hide Write, Pad, NameField;
      var field := MakeName(name);
      HeaderMoves(View(), field + Bytes32(|value|));
      WriteBytes(field + Bytes32(|value|));
      WriteBytes(value);
      PadToWord();
    }

    method PropertyString(name: seq<byte>, value: seq<byte>)
      requires Valid() && pos + 37 + |value| < TWO32
      modifies this`pos, this`error, base
      ensures Valid() && View() == AddProp(old(View()), name, value + [0])
    {
      Property(name, value + [0]);
    }

    method PropertyU32(name: seq<byte>, value: u32)
      requires Valid() && pos + 40 < TWO32
      modifies this`pos, this`error, base
      ensures Valid() && View() == AddProp(old(View()), name, Bytes32(value))
    {
      Property(name, Bytes32(value));
    }

    method FinishTree() returns (len: u32)
      requires Valid()
      modifies this`pos, this`error, base
      ensures Valid() && View() == Pad(old(View())) && len == Finish(old(View()))
    {
      PadToWord();
      len := if error then 0 else pos;
    }
  }

  lemma HeaderMoves(b: Builder, header: seq<byte>)
    requires Sane(b) && |header| == 36
    ensures |Write(b, header).data| <= |b.data| + 36
  {
  }

  // ----- walkers -----

  /** `skip_node`, with the recursion cut at `depth`. */
  method SkipNodeBytes(m: seq<byte>, start: u32, end: u32, depth: nat) returns (r: Outcome)
    requires IsMemory(m)
    ensures r == WalkNode(m, start, end, depth).outcome
    decreases depth
  {
    hide Load, Align4, Add32;
    if depth == 0 {
      return Running;
    }
    if Add32(start, 8) > end {
      return Done(None);
    }
    var nprops, nchildren := Load(m, start), Load(m, Add32(start, 4));
    var p: u32 := Add32(start, 8);
    var i := 0;
    while i < nprops
      invariant 0 <= i <= nprops
      invariant WalkProps(m, p, end, nprops - i).outcome == WalkProps(m, Add32(start, 8), end, nprops).outcome
    {
      if Add32(p, 36) > end {
        return Done(None);
      }
      var len := Load(m, Add32(p, 32));
      p := Add32(p, 36);
      if Add32(p, len) > end {
        return Done(None);
      }
      p := Add32(p, Align4(len));
      i := i + 1;
    }
    i := 0;
    ghost var children := p;
    while i < nchildren
      invariant 0 <= i <= nchildren
      invariant WalkChildren(m, p, end, nchildren - i, depth - 1).outcome ==
                WalkChildren(m, children, end, nchildren, depth - 1).outcome
    {
      var q := SkipNodeBytes(m, p, end, depth - 1);
      if q == Running || q.at.None? {
        return q;
      }
      p := q.at.value;
      i := i + 1;
    }
    return Returned(Done(Some(p)));
  }

  /** strcmp(a, key) == 0, comparing until the first difference or terminator. */
  method StringEquals(m: seq<byte>, o: u32, key: seq<byte>) returns (eq: bool)
    requires IsMemory(m) && IsCString(key)
    ensures eq == StringAt(m, o, key)
  {
    hide Wrap;
    var i := 0;
    while i < |key| && m[Wrap(o + i)] == key[i]
      invariant 0 <= i <= |key|
      invariant forall k :: 0 <= k < i ==> m[Wrap(o + k)] == key[k]
    {
      i := i + 1;
    }
    return i == |key| && m[Wrap(o + i)] == 0;
  }

  method NodeHasNameBytes(m: seq<byte>, node: u32, end: u32, key: seq<byte>) returns (r: bool)
    requires IsMemory(m) && IsCString(key)
    ensures r == NodeHasName(m, node, end, key)
  {
    hide Load, Align4, Add32, StringAt;
    if Add32(node, 8) > end {
      return false;
    }
    var nprops, p, i := Load(m, node), Add32(node, 8), 0;
    while i < nprops
      invariant 0 <= i <= nprops
      invariant HasNameFrom(m, p, end, nprops - i, key) == HasNameFrom(m, Add32(node, 8), end, nprops, key)
    {
      if Add32(p, 36) > end {
        return false;
      }
      var name, len := p, Load(m, Add32(p, 32));
      p := Add32(p, 36);
      if Add32(p, len) > end {
        return false;
      }
      var isName := StringEquals(m, name, NAME_KEY);
      if isName && len > 0 {
        var same := StringEquals(m, p, key);
        if same {
          return true;
        }
      }
      p := Add32(p, Align4(len));
      i := i + 1;
    }
    return false;
  }

  method FindChildByName(m: seq<byte>, node: u32, end: u32, key: seq<byte>, depth: nat) returns (r: Outcome)
    requires IsMemory(m) && IsCString(key)
    ensures r == FindChild(m, node, end, key, depth)
  {
    hide Load, Align4, Add32, NodeHasName, WalkNode;
    if Add32(node, 8) > end {
      return Done(None);
    }
    var nprops, nchildren := Load(m, node), Load(m, Add32(node, 4));
    var p: u32 := Add32(node, 8);
    var i := 0;
    while i < nprops
      invariant 0 <= i <= nprops
      invariant PassProps(m, p, end, nprops - i) == PassProps(m, Add32(node, 8), end, nprops)
    {
      if Add32(p, 36) > end {
        return Done(None);
      }
      p := Add32(Add32(p, 36), Align4(Load(m, Add32(p, 32))));
      i := i + 1;
    }
    i := 0;
    ghost var children := p;
    while i < nchildren
      invariant 0 <= i <= nchildren
      invariant FindFrom(m, p, end, nchildren - i, key, depth) == FindFrom(m, children, end, nchildren, key, depth)
    {
      var found := NodeHasNameBytes(m, p, end, key);
      if found {
        return Returned(Done(Some(p)));
      }
      var q := SkipNodeBytes(m, p, end, depth);
      if q == Running || q.at.None? {
        return q;
      }
      p := q.at.value;
      i := i + 1;
    }
    return Done(None);
  }

  method GetProperty(m: seq<byte>, node: u32, end: u32, key: seq<byte>) returns (r: Option<Found>)
    requires IsMemory(m) && IsCString(key)
    ensures r == GetProp(m, node, end, key)
  {
    hide Load, Align4, Add32, StringAt;
    if Add32(node, 8) > end {
      return None;
    }
    var nprops, p, i := Load(m, node), Add32(node, 8), 0;
    while i < nprops
      invariant 0 <= i <= nprops
      invariant GetPropFrom(m, p, end, nprops - i, key) == GetPropFrom(m, Add32(node, 8), end, nprops, key)
    {
      if Add32(p, 36) > end {
        return None;
      }
      var name, len := p, Load(m, Add32(p, 32));
      p := Add32(p, 36);
      if Add32(p, len) > end {
        return None;
      }
      var same := StringEquals(m, name, key);
      if same {
        return if p == 0 then None else Some(Found(p, len));
      }
      p := Add32(p, Align4(len));
      i := i + 1;
    }
    return None;
  }

  method GetU32Property(m: seq<byte>, node: u32, end: u32, key: seq<byte>, fallback: u32) returns (v: u32)
    requires IsMemory(m) && IsCString(key)
    ensures v == GetU32(m, node, end, key, fallback)
  {
    hide Load, GetProp;
    var f := GetProperty(m, node, end, key);
    if f.None? || f.value.len < 4 {
      return fallback;
    }
    return Load(m, f.value.pos);
  }
}
