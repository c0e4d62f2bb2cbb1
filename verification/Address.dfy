/** Checksummed addresses: a tag, the payload and four bytes of its hash, in Base58. */
module Address {
  import opened Options
  import opened Positional
  import Base58
  import Varint

  type Hash = seq<Byte> -> Bytes32

  function Signed(hash: Hash, buf: seq<Byte>): seq<Byte>
  {
    buf + hash(buf)[..4]
  }

  /** The address of a tag and data. */
  function EncAddr(hash: Hash, tag: nat, data: seq<Byte>): string
  {
    Base58.Enc(Signed(hash, Varint.Encode(tag) + data))
  }

  /** What an address carries once its checksum is confirmed and removed. */
  ghost function Payload(hash: Hash, addr: string): Option<seq<Byte>>
  {
    match Base58.Dec(addr)
    case None => None
    case Some(a) =>
      if |a| > 4 && a[|a| - 4..] == hash(a[..|a| - 4])[..4] then Some(a[..|a| - 4]) else None
  }

  lemma PayloadExactly(hash: Hash, addr: string, p: seq<Byte>)
    ensures Payload(hash, addr) == Some(p) <==> p != [] && addr == Base58.Enc(Signed(hash, p))
  {
    hide Base58.Enc, Base58.Dec;
    var a := Signed(hash, p);
    assert a[..|a| - 4] == p && a[|a| - 4..] == hash(p)[..4];
    Base58.DecodesExactly(addr, a);
    if Payload(hash, addr) == Some(p) {
      var b := Base58.Dec(addr).value;
      assert b == b[..|b| - 4] + b[|b| - 4..];
    }
  }

  /** `encode_addr` */
  method EncodeAddr(hash: Hash, tag: nat, data: seq<Byte>) returns (addr: string)
    ensures addr == EncAddr(hash, tag, data)
  {
    var buf := Varint.Write(tag);
    buf := buf + data;
    buf := buf + hash(buf)[..4];
    addr := Base58.Encode(buf);
  }

  /** The payload ends inside its tag: at most nine bytes, none of which ends a tag. */
  ghost predicate CutOff(hash: Hash, addr: string)
  {
    var p := Payload(hash, addr);
    p.Some? && Varint.Truncated(p.value)
  }

  ghost predicate IsAddress(hash: Hash, addr: string, tag: nat, data: seq<Byte>)
  {
    tag < Power(2, 64) && addr == EncAddr(hash, tag, data)
  }

  /** The tag reader finds exactly the tag the payload starts with. */
  lemma AddressOf(hash: Hash, addr: string, p: seq<Byte>, tag: nat, data: seq<Byte>)
    requires Payload(hash, addr) == Some(p)
    ensures IsAddress(hash, addr, tag, data)
       <==> var k := |Varint.Encode(tag)|; Varint.Read(64, p, 0) == Varint.Ok(tag, k) && k <= |p| && data == p[k..]
  {
    hide Base58.Enc, Varint.Encode, Varint.Read, Power, Payload, Signed;
    var e := Varint.Encode(tag);
    Varint.ReadExactly(64, p, tag, |e|);
    PayloadExactly(hash, addr, p);
    PayloadExactly(hash, addr, e + data);
    if e <= p && data == p[|e|..] { assert e + data == p; }
    if e + data == p { assert data == p[|e|..]; }
  }

  lemma NoPayloadNoAddress(hash: Hash, addr: string, tag: nat, data: seq<Byte>)
    requires Payload(hash, addr) == None
    ensures !IsAddress(hash, addr, tag, data)
  {
    hide Base58.Enc, Varint.Encode, Payload, Signed;
    PayloadExactly(hash, addr, Varint.Encode(tag) + data);
  }

  lemma SplitsAfter(hash: Hash, addr: string, p: seq<Byte>, v: nat, k: nat)
    requires Payload(hash, addr) == Some(p) && Varint.Read(64, p, 0) == Varint.Ok(v, k)
    ensures k == |Varint.Encode(v)| <= |p| && IsAddress(hash, addr, v, p[k..])
  {
    hide Base58.Enc, Varint.Encode, Varint.Read, Power, Payload, Signed;
    Varint.ReadExactly(64, p, v, k);
    AddressOf(hash, addr, p, v, p[k..]);
  }

  /** `decode_addr`: takes every address back to the tag and data it was made from and refuses every other
      text, except that a payload ending inside its tag is let through with no data and the bits read so far. */
  method DecodeAddr(hash: Hash, addr: string) returns (r: Option<(nat, seq<Byte>)>)
    ensures !CutOff(hash, addr) ==>
      forall tag: nat, data :: r == Some((tag, data)) <==> IsAddress(hash, addr, tag, data)
    ensures CutOff(hash, addr) ==>
      && r == Some((Varint.Groups(Payload(hash, addr).value), []))
      && forall tag: nat, data :: !IsAddress(hash, addr, tag, data)
  {
    hide Base58.Dec, IsAddress, Varint.Read, Varint.Encode, Varint.Truncated;
    var dec := Base58.Decode(addr);
    if dec == None {
      forall tag: nat, data { NoPayloadNoAddress(hash, addr, tag, data); }
      return None;
    }
    var buf := dec.value;
    if |buf| <= 4 {
      forall tag: nat, data { NoPayloadNoAddress(hash, addr, tag, data); }
      return None;
    }
    var checksum := buf[|buf| - 4..];
    buf := buf[..|buf| - 4];
    if hash(buf)[..4] != checksum {
      forall tag: nat, data { NoPayloadNoAddress(hash, addr, tag, data); }
      return None;
    }
    r := ReadPayload(hash, addr, buf);
  }

  /** The end of `decode_addr`, after the checksum. */
  method ReadPayload(hash: Hash, addr: string, payload: seq<Byte>) returns (r: Option<(nat, seq<Byte>)>)
    requires Payload(hash, addr) == Some(payload)
    ensures !CutOff(hash, addr) ==>
      forall tag: nat, data :: r == Some((tag, data)) <==> IsAddress(hash, addr, tag, data)
    ensures CutOff(hash, addr) ==>
      && r == Some((Varint.Groups(Payload(hash, addr).value), []))
      && forall tag: nat, data :: !IsAddress(hash, addr, tag, data)
  {
    hide Payload, IsAddress, Varint.Read, Varint.Encode, Varint.Truncated, Base58.Enc;
    PayloadExactly(hash, addr, payload);
    Varint.TagAccepted(payload);
    forall tag: nat, data { AddressOf(hash, addr, payload, tag, data); }
    ghost var tagRead := Varint.Read(64, payload, 0);
    if tagRead.Ok? { SplitsAfter(hash, addr, payload, tagRead.value, tagRead.read); }
    var read, tag := Varint.ReadTag(payload);
    if read <= 0 {
      return None;
    }
    r := Some((tag, payload[read..]));
    assert read == |payload| ==> payload[read..] == [];
  }

  /** One byte that starts a tag and never ends it makes such a text. */
  lemma CutOffExists(hash: Hash)
    ensures CutOff(hash, Base58.Enc(Signed(hash, [0x80])))
  {
    hide Base58.Enc, Signed, Payload;
    PayloadExactly(hash, Base58.Enc(Signed(hash, [0x80])), [0x80]);
  }

  /** The checksum guards the payload: a hash that answers differently on another payload does not let it through
      under the checksum of this one. */
  lemma ChecksumGuards(p: seq<Byte>, p': seq<Byte>, a: Bytes32, b: Bytes32)
    requires p != [] && p != p' && a[..4] != b[..4]
    ensures var hash: Hash := z => if z == p then a else b;
      && Payload(hash, Base58.Enc(p + a[..4])) == Some(p)
      && Payload(hash, Base58.Enc(p' + a[..4])) == None
  {
    hide Base58.Enc, Base58.Dec;
    var hash: Hash := z => if z == p then a else b;
    Base58.DecodesExactly(Base58.Enc(p + a[..4]), p + a[..4]);
    Base58.DecodesExactly(Base58.Enc(p' + a[..4]), p' + a[..4]);
    SplitChecksum(p, a[..4]);
    SplitChecksum(p', a[..4]);
  }

  lemma SplitChecksum(p: seq<Byte>, check: seq<Byte>)
    requires |check| == 4
    ensures var x := p + check; x[..|x| - 4] == p && x[|x| - 4..] == check
  {
  }

  /** An address determines its tag and its data. */
  lemma AddressUnique(hash: Hash, tag: nat, data: seq<Byte>, tag': nat, data': seq<Byte>)
    requires tag < Power(2, 64) && tag' < Power(2, 64) && EncAddr(hash, tag, data) == EncAddr(hash, tag', data')
    ensures tag == tag' && data == data'
  {
    hide Base58.Enc, Varint.Encode, Varint.Read, Power, Payload, Signed;
    var p := Varint.Encode(tag) + data;
    var addr := EncAddr(hash, tag, data);
    PayloadExactly(hash, addr, p);
    AddressOf(hash, addr, p, tag, data);
    AddressOf(hash, addr, p, tag', data');
  }
}
