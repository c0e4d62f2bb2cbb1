/** The extra bytes of a transaction: a list of tagged fields, its writers and its parser. */
module TxExtra {
  import opened Options
  import opened Positional
  import Varint

  const MAX_EXTRA_SIZE := 140000

  datatype Field =
    | Padding(size: nat)
    | PublicKey(key: Bytes32)
    | Nonce(nonce: seq<Byte>)
    | MergeMining(depth: nat, root: Bytes32)

  datatype Seen = Seen(padding: bool, key: bool, nonce: bool, tag: bool)

  const NOTHING := Seen(false, false, false, false)

  predicate Has(seen: Seen, f: Field)
  {
    match f
    case Padding(_) => seen.padding
    case PublicKey(_) => seen.key
    case Nonce(_) => seen.nonce
    case MergeMining(_, _) => seen.tag
  }

  function Mark(seen: Seen, f: Field): Seen
  {
    match f
    case Padding(_) => seen.(padding := true)
    case PublicKey(_) => seen.(key := true)
    case Nonce(_) => seen.(nonce := true)
    case MergeMining(_, _) => seen.(tag := true)
  }

  predicate SameKind(f: Field, g: Field)
  {
    Has(Mark(NOTHING, f), g)
  }

  /** What the writers accept. */
  predicate Writable(f: Field)
  {
    match f
    case Padding(n) => n <= 255
    case Nonce(s) => |s| <= 255
    case _ => true
  }

  predicate AllWritable(fs: seq<Field>)
  {
    forall i :: 0 <= i < |fs| ==> Writable(fs[i])
  }

  predicate Unpadded(fs: seq<Field>)
  {
    forall i :: 0 <= i < |fs| ==> !fs[i].Padding?
  }

  /** The merge-mining tag's own serialization. */
  function Body(depth: nat, root: Bytes32): seq<Byte>
  {
    Varint.Encode(depth) + root
  }

  function TagBytes(depth: nat, root: Bytes32): seq<Byte>
  {
    Varint.Encode(|Body(depth, root)|) + Body(depth, root)
  }

  /** The bytes of one field. */
  function Bytes(f: Field): seq<Byte>
    requires Writable(f)
  {
    match f
    case Padding(n) => Zeros(n)
    case PublicKey(k) => [1] + k
    case Nonce(s) => [2, |s|] + s
    case MergeMining(d, r) => [3] + TagBytes(d, r)
  }

  function AllBytes(fs: seq<Field>): seq<Byte>
    requires AllWritable(fs)
  {
    if fs == [] then [] else Bytes(fs[0]) + AllBytes(fs[1..])
  }

  datatype Parsed = Parsed(ok: bool, fields: seq<Field>)

  function Before(fs: seq<Field>, p: Parsed): Parsed
  {
    p.(fields := fs + p.fields)
  }

  /** The field after a tag byte and the bytes it takes, or nothing when the bytes do not make one. */
  function ReadField(tag: Byte, s: seq<Byte>): (r: Option<(Field, nat)>)
    requires tag <= 3
    ensures r.Some? ==> r.value.1 <= |s| && Writable(r.value.0)
  {
    if tag == 0 then
      if |s| <= 254 && s == Zeros(|s|) then Some((Padding(1 + |s|), |s|)) else None
    else if tag == 1 then
      if |s| >= 32 then Some((PublicKey(s[..32]), 32)) else None
    else if tag == 2 then
      var size: nat := if s == [] then 0 else s[0];
      if |s| > size then Some((Nonce(s[1..1 + size]), 1 + size)) else None
    else
      ReadTag(s)
  }

  function Slice32(s: seq<Byte>, i: nat): Bytes32
    requires i + 32 <= |s|
  {
    s[i..i + 32]
  }

  function ReadTag(s: seq<Byte>): (r: Option<(Field, nat)>)
    ensures r.Some? ==> r.value.1 <= |s| && r.value.0.MergeMining?
  {
    var size := Varint.Read(64, s, 0);
    if !size.Ok? then None
    else
      Varint.AcceptedIsEncoded(64, s, 0);
      if size.value > MAX_EXTRA_SIZE || |s| - size.read < size.value then None
      else
        var field := s[size.read..size.read + size.value];
        var depth := Varint.Read(64, field, 0);
        if !depth.Ok? then None
        else
          Varint.AcceptedIsEncoded(64, field, 0);
          if |field| - depth.read < 32 then None
          else Some((MergeMining(depth.value, Slice32(field, depth.read)), size.read + size.value))
  }

  predicate SeenTag(seen: Seen, tag: Byte)
  {
    (tag == 0 && seen.padding) || (tag == 1 && seen.key) || (tag == 2 && seen.nonce) || (tag == 3 && seen.tag)
  }

  /** What parsing yields: unknown tags are skipped byte by byte, as is a second merge-mining tag; a second
      field of another kind ends the parse quietly. */
  function Parse(s: seq<Byte>, seen: Seen): Parsed
  {
    if s == [] then Parsed(true, [])
    else
      var tag, rest := s[0], s[1..];
      if tag > 3 then Parse(rest, seen)
      else if SeenTag(seen, tag) then
        if tag == 3 then Parse(rest, seen) else Parsed(true, [])
      else
        match ReadField(tag, rest)
        case None => Parsed(false, [])
        case Some((f, k)) => Before([f], Parse(rest[k..], Mark(seen, f)))
  }

  /** A field that writing and reading keep. */
  ghost predicate Fine(f: Field)
  {
    match f
    case Padding(n) => 1 <= n <= 255
    case PublicKey(_) => true
    case Nonce(s) => |s| <= 255
    case MergeMining(d, _) => d < Power(2, 64)
  }

  /** At most one field of each kind, and padding at the very end. */
  ghost predicate WellFormed(fs: seq<Field>)
  {
    && (forall i, j :: 0 <= i < j < |fs| ==> !SameKind(fs[i], fs[j]))
    && (forall i :: 0 <= i < |fs| ==> Fine(fs[i]) && (fs[i].Padding? ==> i == |fs| - 1))
  }

  ghost predicate Fresh(fs: seq<Field>, seen: Seen)
  {
    WellFormed(fs) && forall i :: 0 <= i < |fs| ==> !Has(seen, fs[i])
  }

  lemma FreshCons(f: Field, fs: seq<Field>, seen: Seen)
    requires Fine(f) && !Has(seen, f) && (f.Padding? ==> fs == [])
    requires Fresh(fs, Mark(seen, f))
    ensures Fresh([f] + fs, seen)
  {
    forall i | 0 <= i < |fs| ensures !Has(seen, fs[i]) && !SameKind(f, fs[i]) {
      assert !Has(Mark(seen, f), fs[i]);
    }
  }

  lemma FreshTail(fs: seq<Field>, seen: Seen)
    requires fs != [] && Fresh(fs, seen)
    ensures !Has(seen, fs[0]) && Fine(fs[0]) && (fs[0].Padding? ==> fs[1..] == []) && Fresh(fs[1..], Mark(seen, fs[0]))
  {
    forall i | 0 <= i < |fs[1..]| ensures !Has(Mark(seen, fs[0]), fs[1..][i]) {
      assert !SameKind(fs[0], fs[i + 1]) && !Has(seen, fs[i + 1]);
    }
    forall i | 0 <= i < |fs[1..]| ensures Fine(fs[1..][i]) && (fs[1..][i].Padding? ==> i == |fs[1..]| - 1) {
      assert fs[1..][i] == fs[i + 1];
    }
  }

  lemma ReadFieldFine(tag: Byte, s: seq<Byte>, seen: Seen)
    requires tag <= 3 && !SeenTag(seen, tag) && ReadField(tag, s).Some?
    ensures var (f, k) := ReadField(tag, s).value; Fine(f) && !Has(seen, f) && (f.Padding? ==> k == |s|)
  {
    hide ReadTag, Power;
    if tag == 3 { DepthFits(s); }
  }

  lemma DepthFits(s: seq<Byte>)
    ensures ReadTag(s).Some? ==> ReadTag(s).value.0.depth < Power(2, 64)
  {
    hide Varint.Read, Power, Varint.Encode;
    var size := Varint.Read(64, s, 0);
    if ReadTag(s).Some? {
      Varint.AcceptedIsEncoded(64, s, 0);
      Varint.AcceptedIsEncoded(64, s[size.read..size.read + size.value], 0);
    }
  }

  /** Every parse, successful or not, yields each kind of field at most once and padding only at the end. */
  lemma {:induction false} ParsedWellFormed(s: seq<Byte>, seen: Seen)
    ensures Fresh(Parse(s, seen).fields, seen)
    decreases |s|
  {
    hide ReadField, Fresh, Fine, Has, Mark;
    if s == [] || (s[0] <= 3 && SeenTag(seen, s[0]) && s[0] != 3) {
      NoFields(seen);
    } else if s[0] > 3 || SeenTag(seen, s[0]) {
      ParsedWellFormed(s[1..], seen);
    } else if ReadField(s[0], s[1..]).None? {
      NoFields(seen);
    } else {
      var (f, k) := ReadField(s[0], s[1..]).value;
      ReadFieldFine(s[0], s[1..], seen);
      ParsedWellFormed(s[1..][k..], Mark(seen, f));
      FreshCons(f, Parse(s[1..][k..], Mark(seen, f)).fields, seen);
    }
  }

  lemma NoFields(seen: Seen)
    ensures Fresh([], seen)
  {
  }

  function Tag(f: Field): (t: Byte)
    ensures t <= 3 && forall seen :: SeenTag(seen, t) <==> Has(seen, f)
  {
    match f
    case Padding(_) => 0
    case PublicKey(_) => 1
    case Nonce(_) => 2
    case MergeMining(_, _) => 3
  }

  /** Reading a field back from in front of other bytes. */
  lemma FieldReadBack(f: Field, rest: seq<Byte>)
    requires Fine(f) && (f.Padding? ==> rest == [])
    ensures ReadsBack(f, rest)
  {
    hide ReadField, Bytes, ReadsBack, Zeros;
    match f
    case Padding(n) =>
      PaddingReadBack(n);
    case PublicKey(k) =>
      KeyReadBack(k, rest);
    case Nonce(b) =>
      NonceReadBack(b, rest);
    case MergeMining(d, r) =>
      MergeMiningReadBack(d, r, rest);
  }

  ghost predicate ReadsBack(f: Field, rest: seq<Byte>)
    requires Writable(f)
  {
    var s, k := Bytes(f) + rest, |Bytes(f)| - 1;
    s != [] && s[0] == Tag(f) && k >= 0 && ReadField(Tag(f), s[1..]) == Some((f, k)) && s[1..][k..] == rest
  }

  lemma Behind(f: Field, e: seq<Byte>, rest: seq<Byte>)
    requires Writable(f) && Bytes(f) == [Tag(f)] + e && ReadField(Tag(f), e + rest) == Some((f, |e|))
    ensures ReadsBack(f, rest)
  {
    hide ReadField, Bytes, Tag;
    var s := Bytes(f) + rest;
    assert s[1..] == e + rest;
  }

  lemma PaddingReadBack(n: nat)
    requires 1 <= n <= 255
    ensures ReadsBack(Padding(n), [])
  {
    var e := Zeros(n - 1);
    assert e + [] == e;
    assert Zeros(n) == [0] + e;
    Behind(Padding(n), e, []);
  }

  lemma KeyReadBack(k: Bytes32, rest: seq<Byte>)
    ensures ReadsBack(PublicKey(k), rest)
  {
    assert (k + rest)[..32] == k;
    Behind(PublicKey(k), k, rest);
  }

  lemma NonceReadBack(b: seq<Byte>, rest: seq<Byte>)
    requires |b| <= 255
    ensures ReadsBack(Nonce(b), rest)
  {
    var e: seq<Byte> := [|b|] + b;
    assert (e + rest)[1..1 + |b|] == b;
    Behind(Nonce(b), e, rest);
  }

  lemma MergeMiningReadBack(d: nat, r: Bytes32, rest: seq<Byte>)
    requires d < Power(2, 64)
    ensures ReadsBack(MergeMining(d, r), rest)
  {
    hide ReadTag, TagBytes, ReadsBack;
    TagReadBack(d, r, rest);
    Behind(MergeMining(d, r), TagBytes(d, r), rest);
  }

  lemma TagReadBack(depth: nat, root: Bytes32, rest: seq<Byte>)
    requires depth < Power(2, 64)
    ensures ReadTag(TagBytes(depth, root) + rest) == Some((MergeMining(depth, root), |TagBytes(depth, root)|))
  {
    hide Varint.Read, Varint.Encode, Power;
    var body := Body(depth, root);
    var head := Varint.Encode(|body|);
    TagSize(depth, root);
    Varint.ReadEncoded(64, |body|, body + rest, 0);
    assert head + body + rest == head + (body + rest);
    var s := head + body + rest;
    assert s[|head|..|head| + |body|] == body;
    Varint.ReadEncoded(64, depth, root, 0);
    var k := |Varint.Encode(depth)|;
    assert body[k..k + 32] == root;
    assert Varint.Read(64, s, 0) == Varint.Ok(|body|, |head|);
    assert Varint.Read(64, body, 0) == Varint.Ok(depth, k);
  }

  lemma TagSize(depth: nat, root: Bytes32)
    requires depth < Power(2, 64)
    ensures |Body(depth, root)| <= 42 < Power(2, 64) && 42 < MAX_EXTRA_SIZE
  {
    hide Power, Varint.Encode;
    Varint.SixtyFourBits();
    Varint.TenBytes(depth);
  }

  lemma FineWritable(fs: seq<Field>)
    requires WellFormed(fs)
    ensures AllWritable(fs)
  {
    forall i | 0 <= i < |fs| ensures Writable(fs[i]) {
      assert Fine(fs[i]);
    }
  }

  function MarkAll(seen: Seen, fs: seq<Field>): Seen
    decreases |fs|
  {
    if fs == [] then seen else MarkAll(Mark(seen, fs[0]), fs[1..])
  }

  lemma ParseFirst(f: Field, later: seq<Byte>, seen: Seen)
    requires Fine(f) && !Has(seen, f) && (f.Padding? ==> later == [])
    ensures Writable(f) && Parse(Bytes(f) + later, seen) == Before([f], Parse(later, Mark(seen, f)))
  {
    hide Has, Mark, ReadField, Bytes, SeenTag;
    FieldReadBack(f, later);
  }

  /** Written fields are read back from in front of anything, and the rest is parsed as if they stood there. */
  lemma {:induction false} WrittenReadsBack(fs: seq<Field>, rest: seq<Byte>, seen: Seen)
    requires Fresh(fs, seen) && AllWritable(fs) && (rest == [] || Unpadded(fs))
    ensures Parse(AllBytes(fs) + rest, seen) == Before(fs, Parse(rest, MarkAll(seen, fs)))
  {
    hide Fresh, Fine, Has, Mark, Parse, Bytes, Writable;
    if fs == [] {
      assert AllBytes(fs) + rest == rest;
      assert [] + Parse(rest, seen).fields == Parse(rest, seen).fields;
    } else {
      FreshTail(fs, seen);
      var later := AllBytes(fs[1..]) + rest;
      WrittenReadsBack(fs[1..], rest, Mark(seen, fs[0]));
      if fs[0].Padding? { assert later == []; }
      ParseFirst(fs[0], later, seen);
      assert AllBytes(fs) + rest == Bytes(fs[0]) + later;
      var p := Parse(rest, MarkAll(seen, fs));
      assert [fs[0]] + (fs[1..] + p.fields) == fs + p.fields;
    }
  }

  /** Writing and parsing give the list back exactly when it is well formed. */
  lemma RoundTrip(fs: seq<Field>)
    requires AllWritable(fs)
    ensures Parse(AllBytes(fs), NOTHING) == Parsed(true, fs) <==> WellFormed(fs)
  {
    hide Has, Mark;
    ParsedWellFormed(AllBytes(fs), NOTHING);
    if WellFormed(fs) {
      NothingSeen();
      WrittenReadsBack(fs, [], NOTHING);
      assert AllBytes(fs) + [] == AllBytes(fs);
    }
  }

  lemma NothingSeen()
    ensures forall f :: !Has(NOTHING, f)
  {
  }

  /** The first field of a kind, as `findTransactionExtraFieldByType` finds it. */
  function FirstKey(fs: seq<Field>): Option<Bytes32>
  {
    if fs == [] then None else if fs[0].PublicKey? then Some(fs[0].key) else FirstKey(fs[1..])
  }

  function FirstNonce(fs: seq<Field>): Option<seq<Byte>>
  {
    if fs == [] then None else if fs[0].Nonce? then Some(fs[0].nonce) else FirstNonce(fs[1..])
  }

  lemma {:induction false} FirstOf(fs: seq<Field>, i: nat, more: seq<Field>)
    requires i < |fs| && forall j :: 0 <= j < i ==> !SameKind(fs[j], fs[i])
    ensures fs[i].PublicKey? ==> FirstKey(fs + more) == Some(fs[i].key)
    ensures fs[i].Nonce? ==> FirstNonce(fs + more) == Some(fs[i].nonce)
  {
    assert (fs + more)[1..] == fs[1..] + more;
    if i > 0 {
      assert !SameKind(fs[0], fs[i]);
      FirstOf(fs[1..], i - 1, more);
    }
  }

  /** `getTransactionPublicKeyFromExtra`: the parse may fail later on, the zero key stands for none. */
  function KeyOf(extra: seq<Byte>): Bytes32
  {
    match FirstKey(Parse(extra, NOTHING).fields)
    case Some(k) => k
    case None => Zeros(32)
  }

  /** `getPaymentIdFromTxExtra` */
  function PaymentId(extra: seq<Byte>): Option<Bytes32>
  {
    var p := Parse(extra, NOTHING);
    if !p.ok then None
    else
      match FirstNonce(p.fields)
      case None => None
      case Some(n) => if |n| == 33 && n[0] == 0 then Some(n[1..]) else None
  }

  /** A key among written fields is found whatever bytes follow. */
  lemma KeySurvives(fs: seq<Field>, i: nat, junk: seq<Byte>)
    requires WellFormed(fs) && AllWritable(fs) && Unpadded(fs) && i < |fs| && fs[i].PublicKey?
    ensures KeyOf(AllBytes(fs) + junk) == fs[i].key
  {
    hide Has, Mark, Parse;
    NothingSeen();
    WrittenReadsBack(fs, junk, NOTHING);
    FirstOf(fs, i, Parse(junk, MarkAll(NOTHING, fs)).fields);
  }

  lemma NonceBehind(fs: seq<Field>, n: Field)
    requires WellFormed(fs) && n.Nonce? && |n.nonce| <= 255 && Unpadded(fs)
    requires forall i :: 0 <= i < |fs| ==> !fs[i].Nonce?
    ensures WellFormed(fs + [n]) && FirstNonce(fs + [n]) == Some(n.nonce)
  {
    hide FirstNonce;
    var all := fs + [n];
    forall i | 0 <= i < |fs| ensures !SameKind(all[i], n) && !all[i].Padding? { assert all[i] == fs[i]; }
    FirstOf(all, |fs|, []);
    assert all + [] == all;
  }

  /** A payment id added behind fields without nonce and padding is found again. */
  lemma PaymentIdFound(fs: seq<Field>, id: Bytes32)
    requires WellFormed(fs) && AllWritable(fs) && Unpadded(fs) && forall i :: 0 <= i < |fs| ==> !fs[i].Nonce?
    ensures PaymentId(AllBytes(fs) + Bytes(Nonce([0] + id))) == Some(id)
  {
    hide Has, Mark, Parse, Bytes, WellFormed, AllBytes;
    var n := Nonce([0] + id);
    NonceBehind(fs, n);
    FineWritable(fs + [n]);
    AllBytesAppend(fs, n);
    RoundTrip(fs + [n]);
    assert n.nonce[1..] == id;
  }

  lemma {:induction false} AllBytesAppend(fs: seq<Field>, f: Field)
    requires AllWritable(fs) && Writable(f)
    ensures AllWritable(fs + [f]) && AllBytes(fs + [f]) == AllBytes(fs) + Bytes(f)
  {
    hide Bytes, Writable;
    if fs == [] {
      assert fs + [f] == [f] && [f][1..] == [];
    } else {
      assert (fs + [f])[1..] == fs[1..] + [f];
      AllBytesAppend(fs[1..], f);
    }
  }

  /** The key among fields of which at most one is a key; and the same for the nonce. */
  lemma {:induction false} FirstExactly(fs: seq<Field>)
    requires forall i, j :: 0 <= i < j < |fs| ==> !SameKind(fs[i], fs[j])
    ensures forall k :: FirstKey(fs) == Some(k) <==> PublicKey(k) in fs
    ensures forall n :: FirstNonce(fs) == Some(n) <==> Nonce(n) in fs
  {
    if fs != [] {
      var rest := fs[1..];
      forall i, j | 0 <= i < j < |rest| ensures !SameKind(rest[i], rest[j]) {
        assert rest[i] == fs[i + 1] && rest[j] == fs[j + 1];
      }
      FirstExactly(rest);
      forall f | f in rest ensures !SameKind(fs[0], f) && f in fs {
        var i :| 0 <= i < |rest| && rest[i] == f;
        assert f == fs[i + 1];
      }
      assert forall f :: f in fs <==> f == fs[0] || f in rest;
    }
  }

  /** `getTransactionPublicKeyFromExtra` finds the key among the fields, and zeros when there is none. */
  lemma KeyExactly(extra: seq<Byte>, k: Bytes32)
    ensures var fs := Parse(extra, NOTHING).fields;
      KeyOf(extra) == k <==> PublicKey(k) in fs || (k == Zeros(32) && forall k' :: PublicKey(k') !in fs)
  {
    hide Parse, Has, Mark, FirstKey;
    var fs := Parse(extra, NOTHING).fields;
    ParsedWellFormed(extra, NOTHING);
    FirstExactly(fs);
    if forall k' :: PublicKey(k') !in fs {
      assert FirstKey(fs).None?;
    }
  }

  /** `getPaymentIdFromTxExtra` finds a payment id exactly when the parse succeeds and the nonce is one. */
  lemma PaymentIdExactly(extra: seq<Byte>, id: Bytes32)
    ensures var p := Parse(extra, NOTHING);
      PaymentId(extra) == Some(id) <==> p.ok && Nonce([0] + id) in p.fields
  {
    hide Parse, Has, Mark, FirstNonce;
    var p := Parse(extra, NOTHING);
    ParsedWellFormed(extra, NOTHING);
    FirstExactly(p.fields);
    assert ([0] + id)[1..] == id;
    if FirstNonce(p.fields).Some? {
      var n := FirstNonce(p.fields).value;
      if |n| == 33 && n[0] == 0 { assert n == [0] + n[1..]; }
    }
  }

  /** Merge-mining bytes: the length, then the serialization, then bytes that are not looked at. */
  ghost predicate TagEncoded(b: seq<Byte>, depth: nat, root: Bytes32, surplus: seq<Byte>)
  {
    var size := |Body(depth, root)| + |surplus|;
    size <= MAX_EXTRA_SIZE && b == Varint.Encode(size) + Body(depth, root) + surplus
  }

  /** The bytes, without their tag, that are read as the field. */
  ghost predicate Encodes(b: seq<Byte>, f: Field)
  {
    match f
    case Padding(n) => |b| == n - 1 && b == Zeros(|b|)
    case PublicKey(k) => b == k
    case Nonce(s) => |s| <= 255 && b == [|s|] + s
    case MergeMining(d, r) => exists surplus :: TagEncoded(b, d, r, surplus)
  }

  /** Behind its tag a field is read exactly when its bytes stand there; padding has to reach the end. */
  lemma ReadFieldExactly(tag: Byte, s: seq<Byte>, f: Field, k: nat)
    requires tag <= 3
    ensures ReadField(tag, s) == Some((f, k)) <==>
      k <= |s| && Fine(f) && Tag(f) == tag && Encodes(s[..k], f) && (f.Padding? ==> k == |s|)
  {
    hide ReadTag, Power, TagEncoded;
    if tag == 0 {
      if f.Padding? { assert k == |s| ==> s[..k] == s; }
    } else if tag == 1 {
    } else if tag == 2 {
      NonceExactly(s, f, k);
    } else {
      ReadTagExactly(s, f, k);
    }
  }

  lemma NonceExactly(s: seq<Byte>, f: Field, k: nat)
    ensures ReadField(2, s) == Some((f, k)) <==> k <= |s| && f.Nonce? && Encodes(s[..k], f)
  {
    hide ReadTag, TagEncoded;
    if s != [] && |s| > s[0] {
      assert s[..1 + s[0]] == [s[0]] + s[1..1 + s[0]];
    }
    if k <= |s| && f.Nonce? && Encodes(s[..k], f) {
      assert s[0] == s[..k][0] == |f.nonce| && k == 1 + |f.nonce|;
      assert s[1..k] == s[..k][1..] == f.nonce;
    }
  }

  lemma ReadTagExactly(s: seq<Byte>, f: Field, k: nat)
    ensures ReadTag(s) == Some((f, k)) <==> k <= |s| && f.MergeMining? && Fine(f) && Encodes(s[..k], f)
  {
    hide Power, ReadTag;
    if ReadTag(s) == Some((f, k)) {
      TagIsEncoded(s, f, k);
    }
    if k <= |s| && f.MergeMining? && Fine(f) && Encodes(s[..k], f) {
      var surplus :| TagEncoded(s[..k], f.depth, f.root, surplus);
      TagWithSurplus(f.depth, f.root, surplus, s[k..]);
      assert s == s[..k] + s[k..];
    }
  }

  lemma TagIsEncoded(s: seq<Byte>, f: Field, k: nat)
    requires ReadTag(s) == Some((f, k))
    ensures k <= |s| && f.MergeMining? && Fine(f) && Encodes(s[..k], f)
  {
    hide Power, Varint.Read, Varint.Encode;
    var size := Varint.Read(64, s, 0);
    Varint.AcceptedIsEncoded(64, s, 0);
    var field := s[size.read..size.read + size.value];
    var depth := Varint.Read(64, field, 0);
    Varint.AcceptedIsEncoded(64, field, 0);
    var surplus := field[depth.read + 32..];
    assert field == Varint.Encode(f.depth) + f.root + surplus;
    assert s[..k] == s[..size.read] + field;
    assert TagEncoded(s[..k], f.depth, f.root, surplus);
  }

  lemma TagWithSurplus(depth: nat, root: Bytes32, surplus: seq<Byte>, rest: seq<Byte>)
    requires depth < Power(2, 64) && |Body(depth, root)| + |surplus| <= MAX_EXTRA_SIZE
    ensures var b := Varint.Encode(|Body(depth, root)| + |surplus|) + Body(depth, root) + surplus;
      ReadTag(b + rest) == Some((MergeMining(depth, root), |b|))
  {
    hide Varint.Read, Varint.Encode, Power;
    var field := Body(depth, root) + surplus;
    var head := Varint.Encode(|field|);
    var s := head + Body(depth, root) + surplus + rest;
    Varint.SixtyFourBits();
    Varint.ReadEncoded(64, |field|, field + rest, 0);
    assert s == head + (field + rest);
    assert s[|head|..|head| + |field|] == field;
    assert field == Varint.Encode(depth) + (root + surplus);
    Varint.ReadEncoded(64, depth, root + surplus, 0);
    var k := |Varint.Encode(depth)|;
    assert field[k..k + 32] == root;
    assert Varint.Read(64, s, 0) == Varint.Ok(|field|, |head|);
    assert Varint.Read(64, field, 0) == Varint.Ok(depth, k);
  }

  /** Bytes that are no tag are passed over wherever they stand between fields. */
  lemma {:induction false} JunkIgnored(fs: seq<Field>, junk: seq<Byte>, rest: seq<Byte>)
    requires WellFormed(fs) && AllWritable(fs) && Unpadded(fs) && forall i :: 0 <= i < |junk| ==> junk[i] > 3
    ensures Parse(AllBytes(fs) + (junk + rest), NOTHING) == Parse(AllBytes(fs) + rest, NOTHING)
  {
    hide Has, Mark, Parse, WellFormed, AllBytes;
    NothingSeen();
    assert Fresh(fs, NOTHING);
    WrittenReadsBack(fs, junk + rest, NOTHING);
    WrittenReadsBack(fs, rest, NOTHING);
    OverJunk(junk, rest, MarkAll(NOTHING, fs));
  }

  lemma {:induction false} OverJunk(junk: seq<Byte>, rest: seq<Byte>, seen: Seen)
    requires forall i :: 0 <= i < |junk| ==> junk[i] > 3
    ensures Parse(junk + rest, seen) == Parse(rest, seen)
  {
    if junk == [] {
      assert junk + rest == rest;
    } else {
      assert (junk + rest)[1..] == junk[1..] + rest;
      OverJunk(junk[1..], rest, seen);
    }
  }

  /** A second key or nonce ends the parse without an error, whatever stands behind it; a second merge-mining tag is
      passed over like a byte that is no tag. */
  lemma SecondOfAKind(fs: seq<Field>, f: Field, rest: seq<Byte>)
    requires WellFormed(fs) && AllWritable(fs) && Unpadded(fs) && f in fs
    ensures Parse(AllBytes(fs) + ([Tag(f)] + rest), NOTHING)
      == if f.MergeMining? then Parse(AllBytes(fs) + rest, NOTHING) else Parsed(true, fs)
  {
    hide Has, Mark, WellFormed, AllBytes;
    NothingSeen();
    assert Fresh(fs, NOTHING);
    WrittenReadsBack(fs, [Tag(f)] + rest, NOTHING);
    WrittenReadsBack(fs, rest, NOTHING);
    Marked(fs, f, NOTHING);
    assert ([Tag(f)] + rest)[1..] == rest;
    assert fs + [] == fs;
  }

  lemma {:induction false} Marked(fs: seq<Field>, f: Field, seen: Seen)
    requires f in fs || Has(seen, f)
    ensures Has(MarkAll(seen, fs), f)
    decreases |fs|
  {
    if fs != [] { Marked(fs[1..], f, Mark(seen, fs[0])); }
  }
}
