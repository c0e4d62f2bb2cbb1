/** The extra-field writers and the parser loop, proved against the field-by-field description. */
module TxExtraCodec {
  import opened Options
  import opened Positional
  import opened TxExtra
  import Varint

  /** The bytes under construction, as the writers append to them. */
  class Writer {
    var extra: seq<Byte>

    constructor (bytes: seq<Byte>)
      ensures extra == bytes
    {
      extra := bytes;
    }

    /** `addTransactionPublicKeyToExtra` */
    method AddPublicKey(key: Bytes32)
      modifies this
      ensures extra == old(extra) + Bytes(PublicKey(key)) == old(extra) + ([1] + key)
    {
      extra := extra + Zeros(33);
      extra := extra[|extra| - 33 := 1];
      extra := extra[..|extra| - 32] + key;
    }

    /** `addExtraNonceToTransactionExtra` */
    method AddNonce(nonce: seq<Byte>) returns (ok: bool)
      modifies this
      ensures ok <==> Writable(Nonce(nonce))
      ensures extra == if ok then old(extra) + Bytes(Nonce(nonce)) else old(extra)
      ensures ok ==> |nonce| <= 255 && extra == old(extra) + ([2, |nonce|] + nonce)
    {
      if |nonce| > 255 {
        return false;
      }
      var start := |extra|;
      extra := extra + Zeros(2 + |nonce|);
      extra := extra[start := 2];
      start := start + 1;
      extra := extra[start := |nonce|];
      start := start + 1;
      extra := extra[..start] + nonce;
      ok := true;
    }

    /** `appendMergeMiningTagToExtra` */
    method AddMergeMining(depth: nat, root: Bytes32)
      modifies this
      ensures extra == old(extra) + Bytes(MergeMining(depth, root))
      ensures var body := Varint.Encode(depth) + root; extra == old(extra) + ([3] + (Varint.Encode(|body|) + body))
    {
      hide Varint.Encode;
      var field := Varint.Write(depth);
      field := field + root;
      var blob := Varint.Write(|field|);
      blob := blob + field;
      extra := extra + [3];
      extra := extra + blob;
    }

    /** The visitor: one field by its kind. */
    method Add(f: Field) returns (ok: bool)
      modifies this
      ensures ok <==> Writable(f)
      ensures extra == if ok then old(extra) + Bytes(f) else old(extra)
    {
      match f
      case Padding(n) =>
        ok := n <= 255;
        if ok { extra := extra + Zeros(n); }
      case PublicKey(k) =>
        AddPublicKey(k);
        ok := true;
      case Nonce(s) =>
        ok := AddNonce(s);
      case MergeMining(d, r) =>
        AddMergeMining(d, r);
        ok := true;
    }

    /** `writeTransactionExtra`: all fields, or those in front of the first that is refused. */
    method WriteAll(fs: seq<Field>) returns (ok: bool, count: nat)
      modifies this
      ensures count <= |fs| && AllWritable(fs[..count]) && extra == old(extra) + AllBytes(fs[..count])
      ensures ok <==> count == |fs|
      ensures !ok ==> !Writable(fs[count])
    {
      hide AllBytes, Bytes, Writable;
      count := 0;
      NoBytesYet(extra);
      while count < |fs|
        invariant count <= |fs| && AllWritable(fs[..count])
        invariant extra == old(extra) + AllBytes(fs[..count])
      {
        var added := Add(fs[count]);
        if !added {
          return false, count;
        }
        assert fs[..count + 1] == fs[..count] + [fs[count]];
        AllBytesAppend(fs[..count], fs[count]);
        count := count + 1;
      }
      ok := true;
    }
  }

  lemma NoBytesYet(extra: seq<Byte>)
    ensures extra == extra + AllBytes([])
  {
  }

  /** The padding loop: every byte up to the end must be zero, and the whole run at most 255 bytes long. */
  method ReadPadding(s: seq<Byte>) returns (r: Option<nat>)
    ensures r == if |s| <= 254 && s == Zeros(|s|) then Some(1 + |s|) else None
  {
    var pos, size := 0, 1;
    while pos < |s| && size <= 255
      invariant pos <= |s| && size == pos + 1 <= 256 && s[..pos] == Zeros(pos)
    {
      if s[pos] != 0 {
        return None;
      }
      pos, size := pos + 1, size + 1;
    }
    if size > 255 {
      return None;
    }
    assert s[..pos] == s;
    r := Some(size);
  }

  /** The merge-mining tag: a length-prefixed string that is itself read as a depth and a hash; a length over
      the limit is read away and leaves an empty string. */
  method ReadMergeMining(s: seq<Byte>) returns (r: Option<(Field, nat)>)
    ensures r == TxExtra.ReadTag(s)
  {
    hide Varint.Read;
    var size := Varint.ReadStream(64, s);
    if !size.Ok? {
      return None;
    }
    Varint.AcceptedIsEncoded(64, s, 0);
    if |s| - size.read < size.value {
      return None;
    }
    var field: seq<Byte> := if size.value > MAX_EXTRA_SIZE then [] else s[size.read..size.read + size.value];
    var depth := Varint.ReadStream(64, field);
    NoBytes();
    if !depth.Ok? {
      return None;
    }
    Varint.AcceptedIsEncoded(64, field, 0);
    if |field| - depth.read < 32 {
      return None;
    }
    r := Some((MergeMining(depth.value, Slice32(field, depth.read)), size.read + size.value));
  }

  lemma NoBytes()
    ensures !Varint.Read(64, [], 0).Ok?
  {
  }

  /** What is read plus what the rest will yield makes up the whole. */
  ghost predicate Ahead(extra: seq<Byte>, pos: nat, seen: Seen, fields: seq<Field>)
  {
    pos <= |extra| && Parse(extra, NOTHING) == Before(fields, Parse(extra[pos..], seen))
  }

  lemma Skip(extra: seq<Byte>, pos: nat, seen: Seen, fields: seq<Field>)
    requires Ahead(extra, pos, seen, fields) && pos < |extra| && (extra[pos] > 3 || (extra[pos] == 3 && seen.tag))
    ensures Ahead(extra, pos + 1, seen, fields)
  {
    assert extra[pos..][1..] == extra[pos + 1..];
  }

  lemma Take(extra: seq<Byte>, pos: nat, seen: Seen, fields: seq<Field>)
    requires Ahead(extra, pos, seen, fields) && pos < |extra| && extra[pos] <= 3 && !SeenTag(seen, extra[pos])
    ensures match ReadField(extra[pos], extra[pos + 1..])
      case None => Parse(extra, NOTHING) == Parsed(false, fields)
      case Some((f, k)) => Ahead(extra, pos + 1 + k, Mark(seen, f), fields + [f])
  {
    hide ReadField, SeenTag, Mark;
    var rest := extra[pos + 1..];
    assert extra[pos..][1..] == rest;
    match ReadField(extra[pos], rest)
    case None =>
      assert fields + [] == fields;
    case Some((f, k)) =>
      assert rest[k..] == extra[pos + 1 + k..];
      var p := Parse(rest[k..], Mark(seen, f));
      assert fields + ([f] + p.fields) == (fields + [f]) + p.fields;
  }

  lemma Stop(extra: seq<Byte>, pos: nat, seen: Seen, fields: seq<Field>)
    requires Ahead(extra, pos, seen, fields)
    requires pos == |extra| || (extra[pos] < 3 && SeenTag(seen, extra[pos]))
    ensures Parse(extra, NOTHING) == Parsed(true, fields)
  {
    assert fields + [] == fields;
  }

  lemma Start(extra: seq<Byte>)
    ensures Ahead(extra, 0, NOTHING, [])
  {
    assert extra[0..] == extra;
    assert [] + Parse(extra, NOTHING).fields == Parse(extra, NOTHING).fields;
  }

  /** `parseTransactionExtra` */
  method ParseExtra(extra: seq<Byte>) returns (ok: bool, fields: seq<Field>)
    ensures Parsed(ok, fields) == Parse(extra, NOTHING)
  {
    hide Ahead, Parse, TxExtra.ReadTag, Zeros;
    fields := [];
    Start(extra);
    var pos, seen := 0, NOTHING;
    while pos < |extra|
      invariant 0 <= pos <= |extra| && Ahead(extra, pos, seen, fields)
      decreases |extra| - pos
    {
      var c := extra[pos];
      var rest := extra[pos + 1..];
      if c > 3 || (c == 3 && seen.tag) {
        Skip(extra, pos, seen, fields);
        pos := pos + 1;
      } else if SeenTag(seen, c) {
        Stop(extra, pos, seen, fields);
        return true, fields;
      } else {
        Take(extra, pos, seen, fields);
        var r := ReadOne(c, rest);
        if r == None {
          return false, fields;
        }
        pos, seen, fields := pos + 1 + r.value.1, Mark(seen, r.value.0), fields + [r.value.0];
        Within(c, rest, |extra|, pos);
      }
    }
    Stop(extra, pos, seen, fields);
    ok := true;
  }

  lemma Within(tag: Byte, s: seq<Byte>, n: nat, pos: nat)
    requires tag <= 3 && ReadField(tag, s).Some? && |s| <= n && pos == n - |s| + ReadField(tag, s).value.1
    ensures pos <= n
  {
  }

  /** The body of one `case`. */
  method ReadOne(tag: Byte, s: seq<Byte>) returns (r: Option<(Field, nat)>)
    requires tag <= 3
    ensures r == ReadField(tag, s)
  {
    hide TxExtra.ReadTag;
    if tag == 0 {
      var size := ReadPadding(s);
      return if size.Some? then Some((Padding(size.value), |s|)) else None;
    } else if tag == 1 {
      if |s| < 32 { return None; }
      r := Some((PublicKey(s[..32]), 32));
    } else if tag == 2 {
      if s == [] { return None; }
      var size: nat := s[0];
      if |s| - 1 < size { return None; }
      r := Some((Nonce(s[1..1 + size]), 1 + size));
    } else {
      r := ReadMergeMining(s);
    }
  }
}
