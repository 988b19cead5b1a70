/** The walkers as the payload runs them: pointers are 32-bit words, so every sum of a pointer and a
    length found in the tree may wrap, and a walk may then go on for ever. The memory is the whole
    address space; recursion is cut at a given depth, and a walk that reaches it is still running. */
module DeviceTreeWalk {
  import opened Words
  import opened Runtime
  import opened DeviceTree

  predicate IsMemory(m: seq<byte>) {
    |m| == TWO32
  }

  /** The word at an address. */
  function Load(m: seq<byte>, a: u32): u32
    requires IsMemory(m)
  {
    (m[a] as int) + 0x100 * (m[Add32(a, 1)] as int) + 0x1_0000 * (m[Add32(a, 2)] as int) +
    0x100_0000 * (m[Add32(a, 3)] as int)
  }

  datatype Outcome = Running | Done(at: Option<nat>)

  /** How a walk ended and the tests it passed on the way. */
  datatype Walk = Walk(outcome: Outcome, passed: seq<nat>)

  /** A pointer that has come to address zero is the null pointer, which says that nothing was found. */
  function Returned(o: Outcome): Outcome {
    if o == Done(Some(0)) then Done(None) else o
  }

  predicate Arrived(o: Outcome) {
    o.Done? && o.at.Some? && o.at.value < TWO32
  }

  function WalkProps(m: seq<byte>, p: u32, end: u32, n: nat): (w: Walk)
    requires IsMemory(m)
    ensures w.outcome.Done? && (w.outcome.at.Some? ==> Arrived(w.outcome))
    decreases n
  {
    if n == 0 then Walk(Done(Some(p)), [])
    else if Add32(p, 36) > end then Walk(Done(None), [])
    else
      var value, len := Add32(p, 36), Load(m, Add32(p, 32));
      if Add32(value, len) > end then Walk(Done(None), [p])
      else
        var rest := WalkProps(m, Add32(value, Align4(len)), end, n - 1);
        Walk(rest.outcome, [p, value] + rest.passed)
  }

  function WalkNode(m: seq<byte>, p: u32, end: u32, depth: nat): (w: Walk)
    requires IsMemory(m)
    ensures w.outcome.Done? && w.outcome.at.Some? ==> Arrived(w.outcome)
    decreases depth, 0, 0
  {
    if depth == 0 then Walk(Running, [])
    else if Add32(p, 8) > end then Walk(Done(None), [])
    else
      var props := WalkProps(m, Add32(p, 8), end, Load(m, p));
      if !Arrived(props.outcome) then Walk(props.outcome, [p] + props.passed)
      else
        var children := WalkChildren(m, props.outcome.at.value, end, Load(m, Add32(p, 4)), depth - 1);
        Walk(Returned(children.outcome), [p] + props.passed + children.passed)
  }

  function WalkChildren(m: seq<byte>, p: u32, end: u32, n: nat, depth: nat): (w: Walk)
    requires IsMemory(m)
    ensures w.outcome.Done? && w.outcome.at.Some? ==> Arrived(w.outcome)
    decreases depth, 1, n
  {
    if n == 0 then Walk(Done(Some(p)), [])
    else
      var child := WalkNode(m, p, end, depth);
      if !Arrived(child.outcome) then child
      else
        var rest := WalkChildren(m, child.outcome.at.value, end, n - 1, depth);
        Walk(rest.outcome, child.passed + rest.passed)
  }

  // ----- lookup -----

  /** strcmp against the bytes at `o`: the key's characters followed by a terminator. */
  predicate StringAt(m: seq<byte>, o: u32, key: seq<byte>)
    requires IsMemory(m)
  {
    (forall i :: 0 <= i < |key| ==> m[Wrap(o + i)] == key[i]) && m[Wrap(o + |key|)] == 0
  }

  function HasNameFrom(m: seq<byte>, p: u32, end: u32, n: nat, key: seq<byte>): bool
    requires IsMemory(m)
    decreases n
  {
    if n == 0 || Add32(p, 36) > end then false
    else
      var value, len := Add32(p, 36), Load(m, Add32(p, 32));
      if Add32(value, len) > end then false
      else if StringAt(m, p, NAME_KEY) && len > 0 && StringAt(m, value, key) then true
      else HasNameFrom(m, Add32(value, Align4(len)), end, n - 1, key)
  }

  function NodeHasName(m: seq<byte>, node: u32, end: u32, key: seq<byte>): bool
    requires IsMemory(m)
  {
    Add32(node, 8) <= end && HasNameFrom(m, Add32(node, 8), end, Load(m, node), key)
  }

  /** Past the properties without looking at where their values end. */
  function PassProps(m: seq<byte>, p: u32, end: u32, n: nat): (r: Option<u32>)
    requires IsMemory(m)
    decreases n
  {
    if n == 0 then Some(p)
    else if Add32(p, 36) > end then None
    else PassProps(m, Add32(Add32(p, 36), Align4(Load(m, Add32(p, 32)))), end, n - 1)
  }

  function FindFrom(m: seq<byte>, p: u32, end: u32, n: nat, key: seq<byte>, depth: nat): Outcome
    requires IsMemory(m)
    decreases n
  {
    if n == 0 then Done(None)
    else if NodeHasName(m, p, end, key) then Returned(Done(Some(p)))
    else
      var q := WalkNode(m, p, end, depth).outcome;
      if !Arrived(q) then q else FindFrom(m, q.at.value, end, n - 1, key, depth)
  }

  function FindChild(m: seq<byte>, node: u32, end: u32, key: seq<byte>, depth: nat): Outcome
    requires IsMemory(m)
  {
    if Add32(node, 8) > end then Done(None)
    else
      var p := PassProps(m, Add32(node, 8), end, Load(m, node));
      if p.None? then Done(None) else FindFrom(m, p.value, end, Load(m, Add32(node, 4)), key, depth)
  }

  /** A found property: where its value starts and how long it is. A value at address zero is none. */
  datatype Found = Found(pos: u32, len: u32)

  function GetPropFrom(m: seq<byte>, p: u32, end: u32, n: nat, key: seq<byte>): (r: Option<Found>)
    requires IsMemory(m)
    decreases n
  {
    if n == 0 || Add32(p, 36) > end then None
    else
      var value, len := Add32(p, 36), Load(m, Add32(p, 32));
      if Add32(value, len) > end then None
      else if StringAt(m, p, key) then (if value == 0 then None else Some(Found(value, len)))
      else GetPropFrom(m, Add32(value, Align4(len)), end, n - 1, key)
  }

  function GetProp(m: seq<byte>, node: u32, end: u32, key: seq<byte>): (r: Option<Found>)
    requires IsMemory(m)
  {
    if Add32(node, 8) > end then None
    else GetPropFrom(m, Add32(node, 8), end, Load(m, node), key)
  }

  function GetU32(m: seq<byte>, node: u32, end: u32, key: seq<byte>, fallback: u32): u32
    requires IsMemory(m)
  {
    var f := GetProp(m, node, end, key);
    if f.None? || f.value.len < 4 then fallback else Load(m, f.value.pos)
  }
}
