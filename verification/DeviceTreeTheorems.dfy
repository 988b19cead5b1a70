/** The builder and the walkers are inverse to each other, and lookups on a built tree are lookups in
    the abstract tree. */
module DeviceTreeTheorems {
  import opened Words
  import opened Runtime
  import opened DeviceTree

  // ----- walking arbitrary bytes -----

  /** From a 4-aligned start towards a 4-aligned end, rounding up after the last length check never
      carries the walk past the end. */
  lemma SkipStaysInside(b: seq<byte>, p: nat, end: u32)
    requires end <= |b| && p % 4 == 0 && end % 4 == 0
    ensures var r := SkipNode(b, p, end);
            r.Some? ==> p + 8 <= r.value <= end && r.value % 4 == 0
  {
    hide SkipNode;
    assert Words4(p);
    RoundedBelow(SkipNode(b, p, end), end);
  }

  /** Without an aligned end it can be: a one-byte value at the very end is rounded up past it. */
  lemma UnalignedEndIsPassed()
    ensures exists b: seq<byte> :: |b| == 45 && SkipNode(b, 0, 45) == Some(48)
  {
    var name: seq<byte> := Zeros(32);
    var b := Bytes32(1) + Bytes32(0) + name + Bytes32(1) + [0];
    Le32Frame(b, 0, Bytes32(1), 0);
    Le32Frame(b, 4, Bytes32(0), 0);
    Le32Frame(b, 40, Bytes32(1), 0);
    assert SkipProps(b, 48, 45, 0) == Some(48);
    assert SkipProps(b, 8, 45, 1) == Some(48);
    assert SkipChildren(b, 48, 45, 0) == Some(48);
  }

  lemma RoundedBelow(r: Option<nat>, end: u32)
    requires end % 4 == 0 && (r.Some? ==> Words4(r.value) && r.value <= end + 3)
    ensures r.Some? ==> r.value <= end && r.value % 4 == 0
  {
  }

  // ----- the builder writes the encoding -----

  predicate Room(b: Builder, bytes: seq<byte>) {
    |b.data| + |bytes| <= b.capacity
  }

  /** The last capacity below which rounding a position up to a word does not wrap. */
  const LAST_CAPACITY: u32 := 0xffff_fffc

  /** The builder's result: the bytes appended, or the error flag when they do not fit. */
  predicate Appends(b: Builder, r: Builder, bytes: seq<byte>) {
    && r.capacity == b.capacity
    && if Room(b, bytes) then r == b.(data := b.data + bytes) else b.capacity <= LAST_CAPACITY ==> r.error
  }

  /** Between operations the position is a multiple of four; nothing has failed. */
  predicate Ready(b: Builder) {
    Sane(b) && !b.error && Words4(|b.data|)
  }

  lemma AppendsInTurn(b: Builder, b1: Builder, b2: Builder, x: seq<byte>, y: seq<byte>)
    requires Ready(b) && Appends(b, b1, x)
    requires b2.capacity == b1.capacity && (b1.error ==> b2 == b1)
    requires Room(b, x) ==> Appends(b1, b2, y)
    ensures Appends(b, b2, x + y)
  {
    assert b.data + x + y == b.data + (x + y);
  }

  lemma ReadyAgain(b: Builder, r: Builder, bytes: seq<byte>)
    requires Ready(b) && Appends(b, r, bytes) && Words4(|bytes|) && Sane(r)
    ensures Room(b, bytes) ==> Ready(r)
  {
    hide Words4;
    Words4Sum(|b.data|, |bytes|);
  }

  lemma PadAligns(b: Builder)
    requires Sane(b) && |b.data| <= LAST_CAPACITY
    ensures b.error ==> Pad(b) == b
    ensures !b.error ==> Pad(b) == Write(b, Zeros(Padding(|b.data|)))
  {
    PadLength(|b.data|);
    if Padding(|b.data|) == 0 && !b.error {
      assert b.data + Zeros(0) == b.data;
    }
  }

  lemma PadLength(n: u32)
    requires n <= 0xffff_fffc
    ensures Align4(n) == n + Padding(n)
  {
    hide Align4, Padding;
    OneMultipleOfFour(n, Align4(n), n + Padding(n));
  }

  lemma OneMultipleOfFour(n: nat, x: nat, y: nat)
    requires n <= x < n + 4 && n <= y < n + 4 && x % 4 == 0 && y % 4 == 0
    ensures x == y
  {
  }

  lemma AddPropAppends(b: Builder, p: Prop)
    requires Ready(b) && |p.value| < TWO32
    ensures Appends(b, AddProp(b, p.name, p.value), EncodeProp(p))
  {
    hide NameField, Pad, Padding, Zeros;
    var header := NameField(p.name) + Bytes32(|p.value|);
    var b1 := Write(b, header);
    var b2 := Write(b1, p.value);
    Words4Sum(|b.data|, 36);
    PaddingOfSum(|b.data| + 36, |p.value|);
    if |b2.data| <= LAST_CAPACITY {
      PadAligns(b2);
      if !b2.error {
        assert b2.data == b.data + (header + p.value);
        assert b.data + (header + p.value) + Zeros(Padding(|p.value|)) == b.data + EncodeProp(p);
      }
    } else {
      WholeWords(|b.data| + |EncodeProp(p)|, |b2.data|);
    }
  }

  /** Past the last capacity there is no further whole word. */
  lemma WholeWords(n: nat, m: nat)
    requires n % 4 == 0 && n >= m > LAST_CAPACITY
    ensures n >= TWO32
  {
  }

  lemma PaddingOfSum(m: nat, n: nat)
    requires Words4(m)
    ensures Padding(m + n) == Padding(n)
  {
  }

  lemma StickyProps(b: Builder, ps: seq<Prop>)
    requires Sane(b) && b.error && forall p :: p in ps ==> |p.value| < TWO32
    ensures BuildProps(b, ps) == b
    decreases |ps|
  {
    if ps != [] {
      assert AddProp(b, ps[0].name, ps[0].value) == b;
      StickyProps(b, ps[1..]);
    }
  }

  /** Once the error flag is set nothing is written any more. */
  lemma {:induction false} StickyError(b: Builder, t: Tree)
    requires Sane(b) && b.error && Encodable(t)
    ensures Build(b, t) == b && Finish(b) == 0
    decreases t, 1
  {
    StickyProps(b, t.props);
    StickyAll(b, t.children);
  }

  lemma {:induction false} StickyAll(b: Builder, ts: seq<Tree>)
    requires Sane(b) && b.error && AllEncodable(ts)
    ensures BuildAll(b, ts) == b
    decreases ts, 0
  {
    if ts != [] {
      StickyError(b, ts[0]);
      StickyAll(b, ts[1..]);
    }
  }

  lemma {:induction false} PropsAppend(b: Builder, ps: seq<Prop>)
    requires Ready(b) && forall p :: p in ps ==> |p.value| < TWO32
    ensures Appends(b, BuildProps(b, ps), EncodeProps(ps))
    decreases |ps|
  {
    hide AddProp, EncodeProp, Appends;
    if ps == [] {
      NothingAppended(b);
    } else {
      var b1 := AddProp(b, ps[0].name, ps[0].value);
      AddPropAppends(b, ps[0]);
      ReadyAgain(b, b1, EncodeProp(ps[0]));
      if b1.error {
        StickyProps(b1, ps[1..]);
      }
      if Room(b, EncodeProp(ps[0])) {
        PropsAppend(b1, ps[1..]);
      }
      AppendsInTurn(b, b1, BuildProps(b1, ps[1..]), EncodeProp(ps[0]), EncodeProps(ps[1..]));
    }
  }

  lemma NothingAppended(b: Builder)
    requires Ready(b)
    ensures Appends(b, b, [])
  {
    assert b.data + [] == b.data;
  }

  /** Writing a tree in pre-order appends exactly its encoding when that fits, and otherwise fails. */
  lemma {:induction false} BuildAppends(b: Builder, t: Tree)
    requires Ready(b) && Encodable(t)
    ensures Appends(b, Build(b, t), Encode(t))
    decreases t, 1
  {
    hide Appends, EncodeProps, BuildProps;
    var header := Bytes32(|t.props|) + Bytes32(|t.children|);
    var b1 := NodeBegin(b, |t.props|, |t.children|);
    WriteAppends(b, header);
    Words4Sum(0, 8);
    ReadyAgain(b, b1, header);
    var b2 := BuildProps(b1, t.props);
    if b1.error {
      StickyProps(b1, t.props);
    }
    if Room(b, header) {
      PropsAppend(b1, t.props);
    }
    var body := EncodeProps(t.props);
    AppendsInTurn(b, b1, b2, header, body);
    Words4Sum(8, |body|);
    ReadyAgain(b, b2, header + body);
    if b2.error {
      StickyAll(b2, t.children);
    }
    if Room(b, header + body) {
      AllAppend(b2, t.children);
    }
    AppendsInTurn(b, b2, BuildAll(b2, t.children), header + body, EncodeAll(t.children));
  }

  lemma WriteAppends(b: Builder, bytes: seq<byte>)
    requires Ready(b)
    ensures Appends(b, Write(b, bytes), bytes)
  {
  }

  lemma {:induction false} AllAppend(b: Builder, ts: seq<Tree>)
    requires Ready(b) && AllEncodable(ts)
    ensures Appends(b, BuildAll(b, ts), EncodeAll(ts))
    decreases ts, 0
  {
    hide Appends;
    if ts == [] {
      NothingAppended(b);
    } else {
      var b1 := Build(b, ts[0]);
      BuildAppends(b, ts[0]);
      ReadyAgain(b, b1, Encode(ts[0]));
      if b1.error {
        StickyAll(b1, ts[1..]);
      }
      if Room(b, Encode(ts[0])) {
        AllAppend(b1, ts[1..]);
      }
      AppendsInTurn(b, b1, BuildAll(b1, ts[1..]), Encode(ts[0]), EncodeAll(ts[1..]));
    }
  }

  // ----- an independent reader -----

  /** The characters of a field up to its first zero. */
  function CharsOf(field: seq<byte>): (r: seq<byte>)
    ensures r <= field && IsCString(r)
    ensures |r| < |field| ==> field[|r|] == 0
  {
    if field == [] || field[0] == 0 then [] else [field[0]] + CharsOf(field[1..])
  }

  datatype ParsedProps = ParsedProps(props: seq<Prop>, next: nat)
  datatype Parsed = Parsed(tree: Tree, next: nat)
  datatype ParsedAll = ParsedAll(trees: seq<Tree>, next: nat)

  function ReadProp(b: seq<byte>, p: nat, len: u32): Prop
    requires p + 36 + len <= |b|
  {
    Prop(CharsOf(b[p..p + 32]), b[p + 36..p + 36 + len])
  }

  function ParseProps(b: seq<byte>, p: nat, end: u32, n: nat): (r: Option<ParsedProps>)
    requires end <= |b|
    ensures r.Some? ==> |r.value.props| == n && p <= r.value.next && (p <= end + 3 ==> r.value.next <= end + 3)
    decreases n
  {
    hide Align4, ReadProp, Le32;
    if n == 0 then Some(ParsedProps([], p))
    else if p + 36 > end then None
    else
      var len := Le32(b, p + 32);
      if p + 36 + len > end then None
      else
        NextProp(p, len, end);
        var rest := ParseProps(b, p + 36 + Align4(len), end, n - 1);
        if rest.None? then None else Some(ParsedProps([ReadProp(b, p, len)] + rest.value.props, rest.value.next))
  }

  function Parse(b: seq<byte>, p: nat, end: u32): (r: Option<Parsed>)
    requires end <= |b|
    ensures r.Some? ==> p + 8 <= end && p + 8 <= r.value.next <= end + 3
    decreases Remaining(p, end), 0, 0
  {
    hide Le32;
    if p + 8 > end then None
    else
      var q := ParseProps(b, p + 8, end, Le32(b, p));
      if q.None? then None
      else
        var c := ParseAll(b, q.value.next, end, Le32(b, p + 4));
        if c.None? then None else Some(Parsed(Node(q.value.props, c.value.trees), c.value.next))
  }

  function ParseAll(b: seq<byte>, p: nat, end: u32, n: nat): (r: Option<ParsedAll>)
    requires end <= |b| && p <= end + 3
    ensures r.Some? ==> |r.value.trees| == n && p <= r.value.next <= end + 3
    decreases Remaining(p, end), 1, n
  {
    if n == 0 then Some(ParsedAll([], p))
    else
      var q := Parse(b, p, end);
      if q.None? then None
      else
        var rest := ParseAll(b, q.value.next, end, n - 1);
        if rest.None? then None else Some(ParsedAll([q.value.tree] + rest.value.trees, rest.value.next))
  }

  lemma {:induction false} PropsAgree(b: seq<byte>, p: nat, end: u32, n: nat)
    requires end <= |b|
    ensures SkipProps(b, p, end, n) ==
            if ParseProps(b, p, end, n).Some? then Some(ParseProps(b, p, end, n).value.next) else None
    decreases n
  {
    hide Align4, ReadProp, Le32;
    if n > 0 && p + 36 <= end && p + 36 + Le32(b, p + 32) <= end {
      PropsAgree(b, p + 36 + Align4(Le32(b, p + 32)), end, n - 1);
    }
  }

  /** On arbitrary bytes, skipping a node succeeds exactly when it can be read, and stops where reading
      stops. */
  lemma {:induction false} SkipAgreesWithParse(b: seq<byte>, p: nat, end: u32)
    requires end <= |b|
    ensures SkipNode(b, p, end) == if Parse(b, p, end).Some? then Some(Parse(b, p, end).value.next) else None
    decreases Remaining(p, end), 0, 0
  {
    hide SkipProps, ParseProps, Le32;
    if p + 8 <= end {
      PropsAgree(b, p + 8, end, Le32(b, p));
      var q := ParseProps(b, p + 8, end, Le32(b, p));
      if q.Some? {
        ChildrenAgree(b, q.value.next, end, Le32(b, p + 4));
      }
    }
  }

  lemma {:induction false} ChildrenAgree(b: seq<byte>, p: nat, end: u32, n: nat)
    requires end <= |b| && p <= end + 3
    ensures SkipChildren(b, p, end, n) ==
            if ParseAll(b, p, end, n).Some? then Some(ParseAll(b, p, end, n).value.next) else None
    decreases Remaining(p, end), 1, n
  {
    hide SkipNode, Parse;
    if n > 0 {
      SkipAgreesWithParse(b, p, end);
      if Parse(b, p, end).Some? {
        ChildrenAgree(b, Parse(b, p, end).value.next, end, n - 1);
      }
    }
  }

  // ----- reading an encoding back -----

  /** The pieces of an encoded property, where they lie in the buffer. */
  lemma PropAt(b: seq<byte>, p: nat, prop: Prop)
    requires |prop.value| < TWO32 && At(b, p, EncodeProp(prop))
    ensures At(b, p, NameField(prop.name)) && Le32(b, p + 32) == |prop.value|
    ensures At(b, p + 36, prop.value)
    ensures At(b, p + 36 + |prop.value|, Zeros(Padding(|prop.value|)))
  {
    hide NameField, Zeros, Padding, Le32;
    var name, len, pad := NameField(prop.name), Bytes32(|prop.value|), Zeros(Padding(|prop.value|));
    AtSplits(b, p, name + len + prop.value, pad);
    AtSplits(b, p, name + len, prop.value);
    AtSplits(b, p, name, len);
    WordAt(b, p + 32, |prop.value|);
  }

  predicate CNames(ps: seq<Prop>) {
    forall p :: p in ps ==> IsCString(p.name)
  }

  /** Every name in the tree is a C string. */
  predicate AllCNames(t: Tree)
    decreases t, 1
  {
    CNames(t.props) && ForestCNames(t.children)
  }

  predicate ForestCNames(ts: seq<Tree>)
    decreases ts, 0
  {
    if ts == [] then true else AllCNames(ts[0]) && ForestCNames(ts[1..])
  }

  /** The tree with every name cut to the 31 characters that are stored. */
  function Stored(t: Tree): Tree
    decreases t, 1
  {
    Node(StoredProps(t.props), StoredAll(t.children))
  }

  function StoredProps(ps: seq<Prop>): (r: seq<Prop>)
    ensures |r| == |ps|
  {
    if ps == [] then [] else [Prop(Short(ps[0].name), ps[0].value)] + StoredProps(ps[1..])
  }

  function StoredAll(ts: seq<Tree>): (r: seq<Tree>)
    ensures |r| == |ts|
    decreases ts, 0
  {
    if ts == [] then [] else [Stored(ts[0])] + StoredAll(ts[1..])
  }

  lemma {:induction false} CharsOfPadded(name: seq<byte>, n: nat)
    requires IsCString(name)
    ensures CharsOf(name + Zeros(n)) == name
  {
    if name == [] {
      assert name + Zeros(n) == Zeros(n);
    } else {
      assert (name + Zeros(n))[1..] == name[1..] + Zeros(n);
      CharsOfPadded(name[1..], n);
    }
  }

  lemma StoredName(name: seq<byte>)
    requires IsCString(name)
    ensures CharsOf(NameField(name)) == Short(name)
  {
    hide CharsOf, Zeros;
    CharsOfPadded(Short(name), 32 - |Short(name)|);
  }

  /** Reading one encoded property. */
  lemma ParseOneProp(b: seq<byte>, p: nat, end: u32, prop: Prop)
    requires end <= |b| && IsCString(prop.name) && |prop.value| < TWO32
    requires At(b, p, EncodeProp(prop)) && p + |EncodeProp(prop)| <= end
    ensures p + 36 + Le32(b, p + 32) <= end
    ensures ReadProp(b, p, Le32(b, p + 32)) == Prop(Short(prop.name), prop.value)
    ensures p + 36 + Align4(Le32(b, p + 32)) == p + |EncodeProp(prop)|
  {
    hide EncodeProp, Le32, Align4, Short, NameField, CharsOf, Padding;
    PropAt(b, p, prop);
    StoredName(prop.name);
    ValueFits(prop, p, end);
  }

  lemma CNamesSplit(ps: seq<Prop>)
    requires ps != []
    ensures CNames(ps) ==> IsCString(ps[0].name) && CNames(ps[1..])
  {
  }

  lemma {:induction false} ParseEncodedProps(b: seq<byte>, p: nat, end: u32, ps: seq<Prop>)
    requires end <= |b| && CNames(ps) && forall q :: q in ps ==> |q.value| < TWO32
    requires At(b, p, EncodeProps(ps)) && p + |EncodeProps(ps)| <= end
    ensures ParseProps(b, p, end, |ps|) == Some(ParsedProps(StoredProps(ps), p + |EncodeProps(ps)|))
    decreases |ps|
  {
    hide EncodeProp, Le32, Align4, Short, CharsOf, SkipProps, At, ReadProp, CNames;
    if ps != [] {
      AtSplits(b, p, EncodeProp(ps[0]), EncodeProps(ps[1..]));
      CNamesSplit(ps);
      ParseOneProp(b, p, end, ps[0]);
      ParseEncodedProps(b, p + |EncodeProp(ps[0])|, end, ps[1..]);
    }
  }

  lemma ValueFits(prop: Prop, p: nat, end: u32)
    requires |prop.value| < TWO32 && p + |EncodeProp(prop)| <= end
    ensures |EncodeProp(prop)| == 36 + Align4(|prop.value|)
    ensures p + 36 + |prop.value| <= end
  {
    hide Align4;
    PadLength(|prop.value|);
  }

  /** Skipping from the start of an encoded tree stops exactly at its end, and reading it back gives
      the tree with its stored names. */
  lemma {:induction false} ParseEncoded(b: seq<byte>, p: nat, end: u32, t: Tree)
    requires end <= |b| && Encodable(t) && AllCNames(t)
    requires At(b, p, Encode(t)) && p + |Encode(t)| <= end
    ensures SkipNode(b, p, end) == Some(p + |Encode(t)|)
    ensures Parse(b, p, end) == Some(Parsed(Stored(t), p + |Encode(t)|))
    decreases t, 1
  {
    hide Le32, EncodeProps, CNames, SkipNode, SkipProps, SkipChildren, ParseProps, ParseAll, StoredProps, EncodeAll,
         StoredAll;
    var nprops, nchildren := Bytes32(|t.props|), Bytes32(|t.children|);
    var props, children := EncodeProps(t.props), EncodeAll(t.children);
    AtSplits(b, p, nprops + nchildren + props, children);
    AtSplits(b, p, nprops + nchildren, props);
    AtSplits(b, p, nprops, nchildren);
    WordAt(b, p, |t.props|);
    WordAt(b, p + 4, |t.children|);
    ParseEncodedProps(b, p + 8, end, t.props);
    ParseEncodedAll(b, p + 8 + |props|, end, t.children);
    SkipAgreesWithParse(b, p, end);
  }

  lemma {:induction false} ParseEncodedAll(b: seq<byte>, p: nat, end: u32, ts: seq<Tree>)
    requires end <= |b| && AllEncodable(ts) && ForestCNames(ts)
    requires At(b, p, EncodeAll(ts)) && p + |EncodeAll(ts)| <= end
    ensures ParseAll(b, p, end, |ts|) == Some(ParsedAll(StoredAll(ts), p + |EncodeAll(ts)|))
    decreases ts, 0
  {
    hide Encode, SkipNode, SkipChildren, Parse, Stored, AllCNames, Encodable;
    if ts != [] {
      AtSplits(b, p, Encode(ts[0]), EncodeAll(ts[1..]));
      ParseEncoded(b, p, end, ts[0]);
      ParseEncodedAll(b, p + |Encode(ts[0])|, end, ts[1..]);
    }
  }

  /** A fresh builder over a buffer of the given capacity. */
  function Begin(capacity: u32): Builder {
    Builder([], capacity, false)
  }

  /** The round trip: a tree written from the start finishes with the length of its encoding when that
      fits, and with zero otherwise; on success skipping from the root stops at the reported length and
      reading back gives the tree as stored. */
  lemma RoundTrip(capacity: u32, t: Tree, buffer: seq<byte>)
    requires Encodable(t) && AllCNames(t)
    requires Build(Begin(capacity), t).data <= buffer
    ensures var len := Finish(Build(Begin(capacity), t));
            if |Encode(t)| > capacity then capacity <= LAST_CAPACITY ==> len == 0
            else && len == |Encode(t)| && len <= |buffer|
                 && SkipNode(buffer, 0, len) == Some(len)
                 && Parse(buffer, 0, len) == Some(Parsed(Stored(t), len))
  {
    hide Encode, Build, SkipNode, Parse, Stored, AllCNames, Encodable, Pad;
    var b := Begin(capacity);
    var r := Build(b, t);
    BuildAppends(b, t);
    if |Encode(t)| > capacity {
      if capacity <= LAST_CAPACITY {
        StickyError(r, t);
      }
    } else {
      WholeTree(t, capacity);
      assert [] + Encode(t) == Encode(t);
      PadAligns(r);
      assert Zeros(0) == [] && r.data + Zeros(0) == r.data;
      assert buffer[..|Encode(t)|] == Encode(t);
      ParseEncoded(buffer, 0, |Encode(t)|, t);
    }
  }

  lemma WholeTree(t: Tree, capacity: u32)
    requires Encodable(t) && |Encode(t)| <= capacity
    ensures |Encode(t)| <= LAST_CAPACITY
  {
    hide Encode;
    if |Encode(t)| > LAST_CAPACITY {
      WholeWords(|Encode(t)|, |Encode(t)|);
    }
  }

  /** One property whose value fills the buffer to its last byte. */
  function Brimful(capacity: u32): (t: Tree)
    requires capacity > LAST_CAPACITY
    ensures Encodable(t) && |Encode(t)| > capacity
  {
    var p := Prop([], Zeros(capacity - 44));
    BrimfulLength(p, capacity);
    Node([p], [])
  }

  lemma BrimfulLength(p: Prop, capacity: u32)
    requires capacity > LAST_CAPACITY && |p.value| == capacity - 44
    ensures AllEncodable([]) && EncodeAll([]) == [] && |EncodeProps([p])| == |EncodeProp(p)| == TWO32 - 8
  {
    hide EncodeProp, Padding;
    assert EncodeProps([p]) == EncodeProp(p) + EncodeProps([p][1..]);
    assert Words4(|EncodeProp(p)|);
  }

  /** A buffer longer than that gets no padding when a value ends in its last bytes, and the unpadded
      length is reported. */
  lemma BrimfulIsReported(capacity: u32)
    requires capacity > LAST_CAPACITY
    ensures Finish(Build(Begin(capacity), Brimful(capacity))) == capacity
  {
    hide NameField, Zeros;
    var b, p := Begin(capacity), Prop([], Zeros(capacity - 44));
    assert Brimful(capacity) == Node([p], []);
    var b1 := NodeBegin(b, 1, 0);
    var b2 := AddProp(b1, p.name, p.value);
    assert |b2.data| == capacity && !b2.error;
    assert BuildProps(b1, [p]) == BuildProps(b2, [p][1..]) == b2;
    assert BuildAll(b2, []) == b2;
  }

  predicate Truthful(capacity: u32, t: Tree)
    requires Encodable(t)
  {
    Finish(Build(Begin(capacity), t)) == if |Encode(t)| > capacity then 0 else |Encode(t)|
  }

  /** So the reported length can be trusted for every tree exactly when the capacity is one that a
      position can be rounded up to. */
  lemma TruthfulExactly(capacity: u32)
    ensures (forall t :: Encodable(t) && AllCNames(t) ==> Truthful(capacity, t)) <==> capacity <= LAST_CAPACITY
  {
    hide Encodable, AllCNames, Encode, Build, Brimful, Finish, SkipNode, Parse;
    forall t | Encodable(t) && AllCNames(t) && capacity <= LAST_CAPACITY
      ensures Truthful(capacity, t)
    {
      RoundTrip(capacity, t, Build(Begin(capacity), t).data);
    }
    if capacity > LAST_CAPACITY {
      BrimfulIsReported(capacity);
      BrimfulNames(capacity);
    }
  }

  lemma BrimfulNames(capacity: u32)
    requires capacity > LAST_CAPACITY
    ensures AllCNames(Brimful(capacity))
  {
    hide Zeros;
    assert ForestCNames([]);
  }

  /** Names of at most 31 characters are stored as they are, so the tree itself comes back. */
  predicate ShortNames(t: Tree)
    decreases t, 1
  {
    (forall p :: p in t.props ==> |p.name| <= 31) && AllShortNames(t.children)
  }

  predicate AllShortNames(ts: seq<Tree>)
    decreases ts, 0
  {
    if ts == [] then true else ShortNames(ts[0]) && AllShortNames(ts[1..])
  }

  lemma {:induction false} StoredPropsAre(ps: seq<Prop>)
    ensures StoredProps(ps) == ps <==> forall p :: p in ps ==> |p.name| <= 31
    decreases |ps|
  {
    if ps != [] {
      assert ps == [ps[0]] + ps[1..];
      StoredPropsAre(ps[1..]);
      var s := StoredProps(ps);
      assert s == [s[0]] + s[1..];
      assert s[1..] == StoredProps(ps[1..]);
    }
  }

  /** A tree survives storage unchanged exactly when all its names are short. */
  lemma {:induction false} StoredIsSame(t: Tree)
    ensures Stored(t) == t <==> ShortNames(t)
    decreases t, 1
  {
    StoredPropsAre(t.props);
    StoredAllAreSame(t.children);
  }

  lemma {:induction false} StoredAllAreSame(ts: seq<Tree>)
    ensures StoredAll(ts) == ts <==> AllShortNames(ts)
    decreases ts, 0
  {
    hide Stored, ShortNames;
    if ts != [] {
      assert ts == [ts[0]] + ts[1..];
      StoredIsSame(ts[0]);
      StoredAllAreSame(ts[1..]);
      var s := StoredAll(ts);
      assert s == [s[0]] + s[1..] && s[1..] == StoredAll(ts[1..]);
    }
  }
}
