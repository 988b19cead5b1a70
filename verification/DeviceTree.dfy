/** Apple's flattened device tree: how a tree is written, how the walkers read bytes. */
module DeviceTree {
  import opened Words
  import opened Runtime

  const NAME_LEN: int := 32
  const NODE_HEADER: int := 8
  const PROP_HEADER: int := 36

  datatype Option<+T> = None | Some(value: T)

  /** Names are C strings given without their terminator. */
  datatype Prop = Prop(name: seq<byte>, value: seq<byte>)
  datatype Tree = Node(props: seq<Prop>, children: seq<Tree>)

  predicate IsCString(s: seq<byte>) {
    forall i :: 0 <= i < |s| ==> s[i] != 0
  }

  /** A whole number of 32-bit words. */
  predicate Words4(n: nat) {
    n % 4 == 0
  }

  lemma Words4Sum(m: nat, n: nat)
    requires Words4(n)
    ensures Words4(m) <==> Words4(m + n)
    ensures Words4(8) && Words4(0)
  {
  }

  // ----- writing -----

  /** A name is cut to 31 characters so that its field always ends in a zero. */
  function Short(name: seq<byte>): (r: seq<byte>)
    ensures |r| <= 31 && r <= name
  {
    if |name| <= 31 then name else name[..31]
  }

  function NameField(name: seq<byte>): (r: seq<byte>)
    ensures |r| == 32
  {
    Short(name) + Zeros(32 - |Short(name)|)
  }

  function Padding(n: nat): (r: nat)
    ensures r < 4 && (n + r) % 4 == 0
  {
    (4 - n % 4) % 4
  }

  lemma PaddedIsWords(n: nat)
    ensures Words4(36 + n + Padding(n))
  {
  }

  function EncodeProp(p: Prop): (r: seq<byte>)
    requires |p.value| < TWO32
    ensures |r| == 36 + |p.value| + Padding(|p.value|) && Words4(|r|)
  {
    PaddedIsWords(|p.value|);
    NameField(p.name) + Bytes32(|p.value|) + p.value + Zeros(Padding(|p.value|))
  }

  function EncodeProps(ps: seq<Prop>): (r: seq<byte>)
    requires forall p :: p in ps ==> |p.value| < TWO32
    ensures Words4(|r|) && 36 * |ps| <= |r|
  {
    if ps == [] then []
    else
      hide EncodeProp, Padding, Words4;
      Words4Sum(|EncodeProp(ps[0])|, |EncodeProps(ps[1..])|);
      EncodeProp(ps[0]) + EncodeProps(ps[1..])
  }

  /** Counts and lengths are representable. */
  predicate Encodable(t: Tree)
    decreases t, 1
  {
    && |t.props| < TWO32 && |t.children| < TWO32
    && (forall p :: p in t.props ==> |p.value| < TWO32)
    && AllEncodable(t.children)
  }

  predicate AllEncodable(ts: seq<Tree>)
    decreases ts, 0
  {
    if ts == [] then true else Encodable(ts[0]) && AllEncodable(ts[1..])
  }

  function Encode(t: Tree): (r: seq<byte>)
    requires Encodable(t)
    ensures Words4(|r|) && |r| >= 8
    decreases t, 1
  {
    hide Words4;
    Words4Sum(8, |EncodeProps(t.props)|);
    Words4Sum(8 + |EncodeProps(t.props)|, |EncodeAll(t.children)|);
    Bytes32(|t.props|) + Bytes32(|t.children|) + EncodeProps(t.props) + EncodeAll(t.children)
  }

  function EncodeAll(ts: seq<Tree>): (r: seq<byte>)
    requires AllEncodable(ts)
    ensures Words4(|r|) && 8 * |ts| <= |r|
    decreases ts, 0
  {
    if ts == [] then []
    else
      hide Words4;
      Words4Sum(|Encode(ts[0])|, |EncodeAll(ts[1..])|);
      Encode(ts[0]) + EncodeAll(ts[1..])
  }

  // ----- the builder -----

  /** What the builder has written, out of its capacity, and its sticky error flag. */
  datatype Builder = Builder(data: seq<byte>, capacity: u32, error: bool)

  predicate Sane(b: Builder) {
    |b.data| <= b.capacity
  }

  function Write(b: Builder, src: seq<byte>): (r: Builder)
    requires Sane(b)
    ensures Sane(r) && r.capacity == b.capacity
  {
    if b.error then b
    else if |b.data| + |src| > b.capacity then b.(error := true)
    else b.(data := b.data + src)
  }

  function Pad(b: Builder): (r: Builder)
    requires Sane(b)
    ensures Sane(r) && r.capacity == b.capacity
  {
    var aligned := Align4(|b.data|);
    if aligned > |b.data| then Write(b, Zeros(aligned - |b.data|)) else b
  }

  function NodeBegin(b: Builder, nprops: u32, nchildren: u32): (r: Builder)
    requires Sane(b)
    ensures Sane(r) && r.capacity == b.capacity
  {
    Write(b, Bytes32(nprops) + Bytes32(nchildren))
  }

  function AddProp(b: Builder, name: seq<byte>, value: seq<byte>): (r: Builder)
    requires Sane(b) && |value| < TWO32
    ensures Sane(r) && r.capacity == b.capacity
  {
    Pad(Write(Write(b, NameField(name) + Bytes32(|value|)), value))
  }

  /** The length reported, zero once anything has failed. */
  function Finish(b: Builder): u32
    requires Sane(b)
  {
    if Pad(b).error then 0 else |Pad(b).data|
  }

  function BuildProps(b: Builder, ps: seq<Prop>): (r: Builder)
    requires Sane(b) && forall p :: p in ps ==> |p.value| < TWO32
    ensures Sane(r) && r.capacity == b.capacity
    decreases |ps|
  {
    if ps == [] then b else BuildProps(AddProp(b, ps[0].name, ps[0].value), ps[1..])
  }

  /** Writing a tree in pre-order with truthful counts. */
  function Build(b: Builder, t: Tree): (r: Builder)
    requires Sane(b) && Encodable(t)
    ensures Sane(r) && r.capacity == b.capacity
    decreases t, 1
  {
    BuildAll(BuildProps(NodeBegin(b, |t.props|, |t.children|), t.props), t.children)
  }

  function BuildAll(b: Builder, ts: seq<Tree>): (r: Builder)
    requires Sane(b) && AllEncodable(ts)
    ensures Sane(r) && r.capacity == b.capacity
    decreases ts, 0
  {
    if ts == [] then b else BuildAll(Build(b, ts[0]), ts[1..])
  }

  // ----- walking -----

  /** Bytes left before the end of the buffer. */
  function Remaining(p: nat, end: nat): nat {
    if p < end then end - p else 0
  }

  lemma NextProp(p: nat, len: u32, end: u32)
    requires p + 36 + len <= end
    ensures p + 36 <= p + 36 + Align4(len) <= end + 3
    ensures Words4(p) <==> Words4(p + 36 + Align4(len))
  {
    hide Align4;
    Words4Sum(p, 36 + Align4(len));
  }

  /** Past `n` properties, or none when a header or a value does not fit. */
  function SkipProps(b: seq<byte>, p: nat, end: u32, n: nat): (r: Option<nat>)
    requires end <= |b|
    ensures r.Some? ==> p + 36 * n <= r.value
    ensures r.Some? && p <= end + 3 ==> r.value <= end + 3
    ensures r.Some? && Words4(p) ==> Words4(r.value)
    decreases n
  {
    if n == 0 then Some(p)
    else if p + PROP_HEADER > end then None
    else
      var len := Le32(b, p + NAME_LEN);
      if p + PROP_HEADER + len > end then None
      else
        hide Le32, Align4, Words4;
        NextProp(p, len, end);
        SkipProps(b, p + PROP_HEADER + Align4(len), end, n - 1)
  }

  /** Past a whole node. The counts may be anything: every property takes at least 36 bytes and every
      child at least 8, so the bytes that remain bound the walk. */
  function SkipNode(b: seq<byte>, p: nat, end: u32): (r: Option<nat>)
    requires end <= |b|
    ensures r.Some? ==> p + 8 <= end && p + 8 <= r.value <= end + 3
    ensures r.Some? && Words4(p) ==> Words4(r.value)
    decreases Remaining(p, end), 0, 0
  {
    hide Le32, Words4;
    if p + NODE_HEADER > end then None
    else
      Words4Sum(p, 8);
      var q := SkipProps(b, p + NODE_HEADER, end, Le32(b, p));
      if q.None? then None else SkipChildren(b, q.value, end, Le32(b, p + 4))
  }

  function SkipChildren(b: seq<byte>, p: nat, end: u32, n: nat): (r: Option<nat>)
    requires end <= |b| && p <= end + 3
    ensures r.Some? ==> p + 8 * n <= r.value <= end + 3
    ensures r.Some? && Words4(p) ==> Words4(r.value)
    decreases Remaining(p, end), 1, n
  {
    hide Words4;
    if n == 0 then Some(p)
    else
      var q := SkipNode(b, p, end);
      if q.None? then None else SkipChildren(b, q.value, end, n - 1)
  }

  /** The tests a walk passes, by the position each leads to: of a node header, of a property header and
      of a property's value. */
  function PropsPassed(b: seq<byte>, p: nat, end: u32, n: nat): seq<nat>
    requires end <= |b|
    decreases n
  {
    if n == 0 || p + PROP_HEADER > end then []
    else
      var len := Le32(b, p + NAME_LEN);
      if p + PROP_HEADER + len > end then [p]
      else [p, p + PROP_HEADER] + PropsPassed(b, p + PROP_HEADER + Align4(len), end, n - 1)
  }

  function NodePassed(b: seq<byte>, p: nat, end: u32): seq<nat>
    requires end <= |b|
    decreases Remaining(p, end), 0, 0
  {
    if p + NODE_HEADER > end then []
    else
      var q := SkipProps(b, p + NODE_HEADER, end, Le32(b, p));
      [p] + PropsPassed(b, p + NODE_HEADER, end, Le32(b, p)) +
      if q.None? then [] else ChildrenPassed(b, q.value, end, Le32(b, p + 4))
  }

  function ChildrenPassed(b: seq<byte>, p: nat, end: u32, n: nat): seq<nat>
    requires end <= |b| && p <= end + 3
    decreases Remaining(p, end), 1, n
  {
    if n == 0 then []
    else
      var q := SkipNode(b, p, end);
      NodePassed(b, p, end) + if q.None? then [] else ChildrenPassed(b, q.value, end, n - 1)
  }

  const NAME_KEY: seq<byte> := [0x6e, 0x61, 0x6d, 0x65]
}
