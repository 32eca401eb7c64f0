/** The TLS ClientHello sniffer of `nio/sni.go`. */
module ClientHello {
  import opened Bytes
  import opened Streams
  import opened Buffers

  const DOT: byte := 46
  const MAX_RECORD: nat := 16 * 1024

  // ---- the messages, and how a client encodes them ----

  /** An entry of the server name list (section 3 of RFC 6066); kind 0 is a host name. */
  datatype Name = Name(kind: byte, name: seq<byte>)

  datatype Ext = ServerNames(names: seq<Name>) | Other(typ: nat, data: seq<byte>)

  /** Section 4.1.2 of RFC 8446, inside one handshake record (section 5.1). */
  datatype Hello = Hello(
    header: seq<byte>,                 // handshake type and length, 4 bytes
    version: nat, random: seq<byte>, sid: seq<byte>, ciphers: seq<nat>, compression: seq<byte>, exts: seq<Ext>)

  function EncodeName(n: Name): seq<byte>
    requires |n.name| < 0x1_0000
  { [n.kind] + BE16(|n.name|) + n.name }

  predicate NamesOk(ns: seq<Name>) { forall i :: 0 <= i < |ns| ==> |ns[i].name| < 0x1_0000 }

  function EncodeNames(ns: seq<Name>): seq<byte>
    requires NamesOk(ns)
  { if ns == [] then [] else EncodeName(ns[0]) + EncodeNames(ns[1..]) }

  predicate ExtOk(e: Ext) {
    match e
    case ServerNames(ns) => NamesOk(ns) && |EncodeNames(ns)| + 2 < 0x1_0000
    case Other(typ, data) => 0 < typ < 0x1_0000 && |data| < 0x1_0000
  }

  function ExtBody(e: Ext): (r: seq<byte>)
    requires ExtOk(e)
    ensures |r| < 0x1_0000
  {
    match e
    case ServerNames(ns) => BE16(|EncodeNames(ns)|) + EncodeNames(ns)
    case Other(_, data) => data
  }

  function EncodeExt(e: Ext): seq<byte>
    requires ExtOk(e)
  { BE16(if e.ServerNames? then 0 else e.typ) + BE16(|ExtBody(e)|) + ExtBody(e) }

  predicate ExtsOk(es: seq<Ext>) { forall i :: 0 <= i < |es| ==> ExtOk(es[i]) }

  function EncodeExts(es: seq<Ext>): seq<byte>
    requires ExtsOk(es)
  { if es == [] then [] else EncodeExt(es[0]) + EncodeExts(es[1..]) }

  predicate CiphersOk(cs: seq<nat>) { |cs| < 0x8000 && forall i :: 0 <= i < |cs| ==> cs[i] < 0x1_0000 }

  function EncodeCiphers(cs: seq<nat>): (r: seq<byte>)
    requires forall i :: 0 <= i < |cs| ==> cs[i] < 0x1_0000
    ensures |r| == 2 * |cs|
    ensures forall i :: 0 <= i < |cs| ==> U16(r[2 * i], r[2 * i + 1]) == cs[i]
  {
    if cs == [] then [] else EncodeCiphers(cs[..|cs| - 1]) + BE16(cs[|cs| - 1])
  }

  predicate Encodable(h: Hello) {
    && |h.header| == 4 && h.version < 0x1_0000 && |h.random| == 32 && |h.sid| <= 32
    && CiphersOk(h.ciphers) && |h.compression| < 256 && ExtsOk(h.exts) && |EncodeExts(h.exts)| < 0x1_0000
  }

  function Body(h: Hello): seq<byte>
    requires Encodable(h)
  {
    (h.header + BE16(h.version) + h.random)
    + ([|h.sid|] + h.sid)
    + (BE16(2 * |h.ciphers|) + EncodeCiphers(h.ciphers))
    + ([|h.compression|] + h.compression)
    + (BE16(|EncodeExts(h.exts)|) + EncodeExts(h.exts))
  }

  predicate WellFormed(h: Hello) { Encodable(h) && |Body(h)| <= MAX_RECORD }

  function Record(h: Hello, version: nat): seq<byte>
    requires WellFormed(h) && version < 0x1_0000
  { [0x16] + BE16(version) + BE16(|Body(h)|) + Body(h) }

  // ---- what the sniffer should answer ----

  datatype Found = NoHost | Host(name: seq<byte>) | Malformed

  predicate EndsInDot(s: seq<byte>) { s != [] && s[|s| - 1] == DOT }

  /** The first host name of a list; one that ends in a dot is not allowed. */
  function HostIn(ns: seq<Name>): Found {
    if ns == [] then NoHost
    else if ns[0].kind != 0 then HostIn(ns[1..])
    else if EndsInDot(ns[0].name) then Malformed
    else Host(ns[0].name)
  }

  function HostOf(e: Ext): Found { if e.Other? then NoHost else HostIn(e.names) }

  function Pick(f: Found, dflt: seq<byte>): seq<byte> { if f.Host? then f.name else dflt }

  /** The server name of an extension list, `dflt` if there is none. */
  function HostAmong(es: seq<Ext>, dflt: seq<byte>): (f: Found)
    ensures !f.NoHost?
  {
    if es == [] then Host(dflt)
    else if HostOf(es[0]).Malformed? then Malformed
    else HostAmong(es[1..], Pick(HostOf(es[0]), dflt))
  }

  // ---- the parser, on a record `rec` that lies in an array with `slack` behind it ----

  datatype Sniffed =
    | Sniffed(sid: seq<byte>, ciphers: seq<nat>, name: seq<byte>)
    | NotTls
    | Invalid
    | ReadError(err: Error)
    | OutOfRange                       // an index or slice bound beyond the record
    | Hangs                            // a Peek that never returns

  function ParseNames(d: seq<byte>): Found {
    if d == [] then NoHost
    else if |d| < 3 then Malformed
    else
      var len := U16(d[1], d[2]);
      if |d| - 3 < len then Malformed
      else if d[0] != 0 then ParseNames(d[3 + len..])
      else if EndsInDot(d[3..3 + len]) then Malformed
      else Host(d[3..3 + len])
  }

  function ParseNameList(d: seq<byte>): Found {
    if |d| < 2 || |d| - 2 != U16(d[0], d[1]) then Malformed else ParseNames(d[2..])
  }

  datatype Walk = At(name: seq<byte>) | Bad | Beyond

  /** The extension loop from `off`; slices may reach behind the record, indexes may not. */
  function ParseExts(all: seq<byte>, rlen: nat, off: nat, name: seq<byte>): Walk
    requires rlen <= |all|
    decreases rlen - off
  {
    if off >= rlen then At(name)
    else if off + 4 > rlen then Beyond
    else
      var len := U16(all[off + 2], all[off + 3]);
      if U16(all[off], all[off + 1]) == 0 && off + 4 + len > |all| then Beyond
      else
        var f := if U16(all[off], all[off + 1]) != 0 then NoHost else ParseNameList(all[off + 4..off + 4 + len]);
        if f.Malformed? then Bad else ParseExts(all, rlen, off + 4 + len, Pick(f, name))
  }

  function Ciphers(rec: seq<byte>, off: nat, n: nat): seq<nat>
    requires off + 2 * n <= |rec|
  { seq(n, i requires 0 <= i < n => U16(rec[off + 2 * i], rec[off + 2 * i + 1])) }

  /** Where the extensions start, once session id, ciphers and compression methods are passed. */
  datatype Fixed = Fixed(sid: seq<byte>, ciphers: seq<nat>, off: nat) | FixedBad | FixedBeyond

  function ParseFixed(rec: seq<byte>): (r: Fixed)
    ensures r.Fixed? ==> r.off <= |rec|
  {
    var rlen := |rec|;
    if rlen <= 38 then FixedBeyond
    else if rec[38] > 32 || rlen < 39 + rec[38] then FixedBad
    else
      var off := 39 + rec[38];
      if off + 2 > rlen then FixedBeyond
      else
        var cl := U16(rec[off], rec[off + 1]);
        if cl % 2 == 1 || rlen - off - 2 < 2 + cl then FixedBad
        else
          var ciphers := Ciphers(rec, off + 2, cl / 2);
          var comp := off + 2 + cl;
          var ext := comp + 1 + rec[comp];
          if rlen - comp - 2 < rec[comp] || ext + 2 > rlen then FixedBad
          else if U16(rec[ext], rec[ext + 1]) != rlen - ext - 2 then FixedBad
          else Fixed(rec[39..off], ciphers, ext + 2)
  }

  function ParseRecord(rec: seq<byte>, slack: seq<byte>): Sniffed {
    match ParseFixed(rec)
    case FixedBad => Invalid
    case FixedBeyond => OutOfRange
    case Fixed(sid, ciphers, off) =>
      match ParseExts(rec + slack, |rec|, off, [])
      case At(name) => Sniffed(sid, ciphers, name)
      case Bad => Invalid
      case Beyond => OutOfRange
  }

  /** The answer for a client that sends `v` and then fails with `e`. */
  function Answer(v: seq<byte>, e: Error, slack: seq<byte>): Sniffed {
    if |v| < 1 then ReadError(e)
    else if v[0] != 0x16 then NotTls
    else if |v| < 5 then ReadError(e)
    else
      var rlen := U16(v[3], v[4]);
      if rlen > MAX_RECORD || rlen < 38 then Invalid
      else if |v| < 5 + rlen then ReadError(e)
      else ParseRecord(v[5..5 + rlen], slack)
  }

  /** The fixed part is read beyond the record exactly when the record ends in front of the session
      id length, or in front of the two bytes of the cipher list length. */
  lemma FixedRange(rec: seq<byte>)
    requires 38 <= |rec|
    ensures ParseFixed(rec).FixedBeyond? <==>
      |rec| == 38 || (rec[38] <= 32 && 0 <= |rec| - 39 - rec[38] < 2)
  {
  }

  /** So every record of length 38, which the length check lets pass, is indexed out of range. */
  lemma Record38(v: seq<byte>, e: Error, slack: seq<byte>)
    requires |v| >= 43 && v[0] == 0x16 && U16(v[3], v[4]) == 38
    ensures Answer(v, e, slack) == OutOfRange
  {
    FixedRange(v[5..43]);
  }

  /** A connection that does not start with 0x16 is not TLS, which is no error; a client that ends
      before the first byte, the header, or the announced record gives its read error; a record
      length below 38 or above 16384 is invalid; any other record is parsed. */
  lemma AnswerExact(v: seq<byte>, e: Error, slack: seq<byte>)
    ensures Answer(v, e, slack) == NotTls <==> |v| >= 1 && v[0] != 0x16
    ensures Answer(v, e, slack).ReadError? <==>
      || |v| < 1
      || (v[0] == 0x16 && |v| < 5)
      || (v[0] == 0x16 && 38 <= U16(v[3], v[4]) <= 16384 && |v| < 5 + U16(v[3], v[4]))
    ensures Answer(v, e, slack).ReadError? ==> Answer(v, e, slack).err == e
    ensures |v| >= 5 && v[0] == 0x16 && !(38 <= U16(v[3], v[4]) <= 16384) ==> Answer(v, e, slack) == Invalid
    ensures !Answer(v, e, slack).Hangs?
  {
    if |v| >= 5 && |v| >= 5 + U16(v[3], v[4]) { RecordOutcome(v[5..5 + U16(v[3], v[4])], slack); }
  }

  lemma RecordOutcome(rec: seq<byte>, slack: seq<byte>)
    ensures var r := ParseRecord(rec, slack); r.Sniffed? || r == OutOfRange || r == Invalid
  {
  }

  // ---- parsing undoes encoding ----

  lemma {:induction false} NamesUndo(ns: seq<Name>)
    requires NamesOk(ns)
    ensures ParseNames(EncodeNames(ns)) == HostIn(ns)
  {
    if ns != [] {
      var n, rest := ns[0], EncodeNames(ns[1..]);
      var d, len := EncodeNames(ns), |ns[0].name|;
      var h := BE16(len);
      assert d == [n.kind] + h + n.name + rest;
      assert d[1] == h[0] && d[2] == h[1];
      assert d[3..3 + len] == n.name && d[3 + len..] == rest;
      NamesUndo(ns[1..]);
    }
  }

  lemma NameListUndo(ns: seq<Name>)
    requires ExtOk(ServerNames(ns))
    ensures ParseNameList(ExtBody(ServerNames(ns))) == HostIn(ns)
  {
    var d, names := ExtBody(ServerNames(ns)), EncodeNames(ns);
    var h := BE16(|names|);
    assert d[0] == h[0] && d[1] == h[1] && d[2..] == names;
    NamesUndo(ns);
  }

  predicate Is16(s: seq<byte>, x: nat) { |s| == 2 && U16(s[0], s[1]) == x }

  /** The loop passes over one extension: type `t`, length `l`, body `b`. */
  lemma ExtStep(all: seq<byte>, rlen: nat, off: nat, t: seq<byte>, l: seq<byte>, b: seq<byte>, rest: seq<byte>,
      name: seq<byte>, f: Found)
    requires off <= rlen <= |all| && all[off..rlen] == t + l + b + rest && |t| == 2 && Is16(l, |b|)
    requires f == if U16(t[0], t[1]) != 0 then NoHost else ParseNameList(b)
    ensures var next := off + 4 + |b|;
      && next <= rlen && all[next..rlen] == rest
      && ParseExts(all, rlen, off, name) == if f.Malformed? then Bad else ParseExts(all, rlen, next, Pick(f, name))
  {
    var len := |b|;
    ExtAt(all[off..rlen], t, l, b, rest);
    SubSlice(all, off, rlen, 4, 4 + len);
    SubSlice(all, off, rlen, 4 + len, rlen - off);
  }

  lemma ExtAt(s: seq<byte>, t: seq<byte>, l: seq<byte>, b: seq<byte>, rest: seq<byte>)
    requires s == t + l + b + rest && |t| == |l| == 2
    ensures |s| >= 4 + |b| && s[0] == t[0] && s[1] == t[1] && s[2] == l[0] && s[3] == l[1]
    ensures s[4..4 + |b|] == b && s[4 + |b|..|s|] == rest
  {
  }

  function AsWalk(f: Found): Walk
    requires !f.NoHost?
  { if f.Host? then At(f.name) else Bad }

  /** An encoded extension in parts: type, length, body, and the host name it carries. */
  datatype Raw = Raw(t: seq<byte>, l: seq<byte>, b: seq<byte>, f: Found)

  predicate RawOk(r: Raw) {
    |r.t| == 2 && Is16(r.l, |r.b|) && r.f == if U16(r.t[0], r.t[1]) != 0 then NoHost else ParseNameList(r.b)
  }

  function Flat(rs: seq<Raw>): seq<byte> {
    if rs == [] then [] else rs[0].t + rs[0].l + rs[0].b + Flat(rs[1..])
  }

  function Outcome(rs: seq<Raw>, name: seq<byte>): Walk {
    if rs == [] then At(name) else if rs[0].f.Malformed? then Bad else Outcome(rs[1..], Pick(rs[0].f, name))
  }

  lemma {:induction false} RawUndo(all: seq<byte>, rlen: nat, off: nat, rs: seq<Raw>, name: seq<byte>)
    requires (forall i :: 0 <= i < |rs| ==> RawOk(rs[i])) && off <= rlen <= |all| && all[off..rlen] == Flat(rs)
    ensures ParseExts(all, rlen, off, name) == Outcome(rs, name)
    decreases |rs|
  {
    if rs != [] {
      var r, rest := rs[0], rs[1..];
      ExtStep(all, rlen, off, r.t, r.l, r.b, Flat(rest), name, r.f);
      if !r.f.Malformed? {
        var next, name' := off + 4 + |r.b|, Pick(r.f, name);
        calc {
          ParseExts(all, rlen, off, name);
          ParseExts(all, rlen, next, name');
          { RawUndo(all, rlen, next, rest, name'); }
          Outcome(rest, name');
          Outcome(rs, name);
        }
      }
    }
  }

  lemma RawExt(e: Ext) returns (r: Raw)
    requires ExtOk(e)
    ensures RawOk(r) && r.f == HostOf(e) && EncodeExt(e) == r.t + r.l + r.b
  {
    if e.ServerNames? { NameListUndo(e.names); }
    r := Raw(BE16(if e.ServerNames? then 0 else e.typ), BE16(|ExtBody(e)|), ExtBody(e), HostOf(e));
  }

  lemma {:induction false} RawExts(es: seq<Ext>, name: seq<byte>) returns (rs: seq<Raw>)
    requires ExtsOk(es)
    ensures (forall i :: 0 <= i < |rs| ==> RawOk(rs[i])) && Flat(rs) == EncodeExts(es)
    ensures Outcome(rs, name) == AsWalk(HostAmong(es, name))
    decreases |es|
  {
    if es == [] {
      rs := [];
    } else {
      var r := RawExt(es[0]);
      var rest := RawExts(es[1..], Pick(r.f, name));
      rs := [r] + rest;
      assert rs[1..] == rest;
    }
  }

  /** The extension loop undoes the encoding of the extension list. */
  lemma ExtsUndo(all: seq<byte>, rlen: nat, off: nat, es: seq<Ext>, name: seq<byte>)
    requires ExtsOk(es) && off <= rlen <= |all| && all[off..rlen] == EncodeExts(es)
    ensures ParseExts(all, rlen, off, name) == AsWalk(HostAmong(es, name))
  {
    var rs := RawExts(es, name);
    RawUndo(all, rlen, off, rs, name);
  }

  lemma Slices<T>(a: seq<T>, b: seq<T>, c: seq<T>, d: seq<T>, e: seq<T>)
    ensures var s := a + b + c + d + e; var i := |a|; var j := i + |b|; var k := j + |c|; var l := k + |d|;
      s[i..j] == b && s[j..k] == c && s[k..l] == d && s[l..] == e
  {
  }

  /** Reads of the fixed part, from the four blocks of variable length behind it. */
  lemma FixedReads(rec: seq<byte>, sid: seq<byte>, cl: seq<byte>, cs: seq<byte>, comp: seq<byte>,
      xl: seq<byte>, exts: seq<byte>, n: nat)
    requires |sid| <= 32 && |comp| < 256 && |cs| == 2 * n && Is16(cl, |cs|) && Is16(xl, |exts|)
    requires var i := 39 + |sid|; var j := i + 2 + |cs|; var k := j + 1 + |comp|;
      && |rec| == k + 2 + |exts|
      && rec[38..i] == [|sid|] + sid && rec[i..j] == cl + cs && rec[j..k] == [|comp|] + comp && rec[k..] == xl + exts
    ensures var i := 39 + |sid|;
      && rec[i + 2..i + 2 + |cs|] == cs
      && ParseFixed(rec) == Fixed(sid, Ciphers(rec, i + 2, n), |rec| - |exts|) && rec[|rec| - |exts|..] == exts
  {
    var i := 39 + |sid|;
    var j := i + 2 + |cs|;
    var k := j + 1 + |comp|;
    assert rec[38] == rec[38..i][0] == |sid| && rec[39..i] == rec[38..i][1..] == sid;
    assert rec[i] == rec[i..j][0] && rec[i + 1] == rec[i..j][1] && rec[i + 2..j] == rec[i..j][2..] == cs;
    assert rec[j] == rec[j..k][0] == |comp|;
    assert rec[k] == rec[k..][0] && rec[k + 1] == rec[k..][1] && rec[k + 2..] == rec[k..][2..] == exts;
  }

  lemma CiphersUndo(rec: seq<byte>, at: nat, cs: seq<nat>, r: seq<byte>)
    requires |r| == 2 * |cs| && at + |r| <= |rec| && rec[at..at + |r|] == r
    requires forall i :: 0 <= i < |cs| ==> U16(r[2 * i], r[2 * i + 1]) == cs[i]
    ensures Ciphers(rec, at, |cs|) == cs
  {
    forall i | 0 <= i < |cs| ensures U16(rec[at + 2 * i], rec[at + 2 * i + 1]) == cs[i] {
      assert rec[at + 2 * i] == r[2 * i] && rec[at + 2 * i + 1] == r[2 * i + 1];
    }
  }

  /** The parts of an encoded message. */
  lemma BodyParts(h: Hello) returns (a: seq<byte>, cl: seq<byte>, cs: seq<byte>, xl: seq<byte>, exts: seq<byte>)
    requires Encodable(h)
    ensures |a| == 38 && Is16(cl, |cs|) && Is16(xl, |exts|) && |cs| == 2 * |h.ciphers| && exts == EncodeExts(h.exts)
    ensures forall i :: 0 <= i < |h.ciphers| ==> U16(cs[2 * i], cs[2 * i + 1]) == h.ciphers[i]
    ensures Body(h) == a + ([|h.sid|] + h.sid) + (cl + cs) + ([|h.compression|] + h.compression) + (xl + exts)
  {
    a, cs, exts := h.header + BE16(h.version) + h.random, EncodeCiphers(h.ciphers), EncodeExts(h.exts);
    cl, xl := BE16(|cs|), BE16(|exts|);
  }

  /** The fixed part of a message in parts, field by field. */
  lemma FixedUndo(rec: seq<byte>, a: seq<byte>, sid: seq<byte>, cl: seq<byte>, cs: seq<byte>, comp: seq<byte>,
      xl: seq<byte>, exts: seq<byte>, ciphers: seq<nat>)
    requires |a| == 38 && |sid| <= 32 && |comp| < 256 && Is16(cl, |cs|) && Is16(xl, |exts|) && |cs| == 2 * |ciphers|
    requires forall i :: 0 <= i < |ciphers| ==> U16(cs[2 * i], cs[2 * i + 1]) == ciphers[i]
    requires rec == a + ([|sid|] + sid) + (cl + cs) + ([|comp|] + comp) + (xl + exts)
    ensures ParseFixed(rec) == Fixed(sid, ciphers, |rec| - |exts|) && rec[|rec| - |exts|..] == exts
  {
    Slices(a, [|sid|] + sid, cl + cs, [|comp|] + comp, xl + exts);
    FixedReads(rec, sid, cl, cs, comp, xl, exts, |ciphers|);
    CiphersUndo(rec, 39 + |sid| + 2, ciphers, cs);
  }

  lemma AnswerRecord(rec: seq<byte>, version: nat, more: seq<byte>, e: Error, slack: seq<byte>)
    requires 38 <= |rec| <= MAX_RECORD && version < 0x1_0000
    ensures Answer(([0x16] + BE16(version) + BE16(|rec|) + rec) + more, e, slack) == ParseRecord(rec, slack)
  {
    var x, l := BE16(version), BE16(|rec|);
    var v := ([0x16] + x + l + rec) + more;
    assert v[3] == l[0] && v[4] == l[1] && v[5..5 + |rec|] == rec;
  }

  /** For every well-formed message, whatever follows it on the wire or in the array, the sniffer
      returns its session id, cipher suites and server name; no index leaves the record. */
  lemma SniffUndoesEncode(h: Hello, version: nat, more: seq<byte>, e: Error, slack: seq<byte>)
    requires WellFormed(h) && version < 0x1_0000
    ensures Answer(Record(h, version) + more, e, slack) ==
      if HostAmong(h.exts, []).Malformed? then Invalid
      else Sniffed(h.sid, h.ciphers, HostAmong(h.exts, []).name)
  {
    var a, cl, cs, xl, exts := BodyParts(h);
    var rec := Body(h);
    FixedUndo(rec, a, h.sid, cl, cs, h.compression, xl, exts, h.ciphers);
    var all, off := rec + slack, |rec| - |exts|;
    assert all[off..|rec|] == rec[off..];
    calc {
      Answer(Record(h, version) + more, e, slack);
      { AnswerRecord(rec, version, more, e, slack); }
      ParseRecord(rec, slack);
      { ExtsUndo(all, |rec|, off, h.exts, []); }
      if HostAmong(h.exts, []).Malformed? then Invalid else Sniffed(h.sid, h.ciphers, HostAmong(h.exts, []).name);
    }
  }

  /** The first host name of a list decides: it is the answer, unless it ends in a dot. */
  lemma {:induction false} FirstHost(ns: seq<Name>, i: nat)
    requires i < |ns| && ns[i].kind == 0 && forall j :: 0 <= j < i ==> ns[j].kind != 0
    ensures HostIn(ns) ==
      if |ns[i].name| > 0 && ns[i].name[|ns[i].name| - 1] == 46 then Malformed else Host(ns[i].name)
    decreases i
  {
    if i > 0 { FirstHost(ns[1..], i - 1); }
  }

  lemma {:induction false} NoHostLeft(es: seq<Ext>, name: seq<byte>)
    requires forall i :: 0 <= i < |es| ==> HostOf(es[i]).NoHost?
    ensures HostAmong(es, name) == Host(name)
  {
    if es != [] { NoHostLeft(es[1..], name); }
  }

  /** Of several server_name extensions the last one with a host name is the answer. */
  lemma {:induction false} LastServerName(es: seq<Ext>, i: nat, host: seq<byte>, dflt: seq<byte>)
    requires i < |es| && es[i].ServerNames? && HostIn(es[i].names) == Host(host)
    requires forall j :: 0 <= j < i ==> !HostOf(es[j]).Malformed?
    requires forall j :: i < j < |es| ==> HostOf(es[j]).NoHost?
    ensures HostAmong(es, dflt) == Host(host)
    decreases i
  {
    if i == 0 { NoHostLeft(es[1..], host); } else { LastServerName(es[1..], i - 1, host, Pick(HostOf(es[0]), dflt)); }
  }

  /** With exactly one server_name extension the answer is its first host name. */
  lemma SingleServerName(es: seq<Ext>, i: nat, host: seq<byte>)
    requires i < |es| && es[i].ServerNames? && HostIn(es[i].names) == Host(host)
    requires forall j :: 0 <= j < |es| && j != i ==> es[j].Other?
    ensures HostAmong(es, []) == Host(host)
  {
    LastServerName(es, i, host, []);
  }

  /** One malformed server_name extension spoils the message. */
  lemma {:induction false} MalformedServerName(es: seq<Ext>, i: nat, dflt: seq<byte>)
    requires i < |es| && HostOf(es[i]).Malformed?
    ensures HostAmong(es, dflt).Malformed?
    decreases i
  {
    if i > 0 && !HostOf(es[0]).Malformed? { MalformedServerName(es[1..], i - 1, Pick(HostOf(es[0]), dflt)); }
  }

  // ---- the code ----

  method ReadNames(d0: seq<byte>) returns (f: Found)
    ensures f == ParseNames(d0)
  {
    var d := d0;
    while |d| > 0
      invariant ParseNames(d) == ParseNames(d0)
    {
      if |d| < 3 {
        return Malformed;
      }
      var nameType, nameLen := d[0], U16(d[1], d[2]);
      var tail := d[3..];
      if |tail| < nameLen {
        return Malformed;
      }
      assert tail[..nameLen] == d[3..3 + nameLen] && tail[nameLen..] == d[3 + nameLen..];
      if nameType == 0 {
        return if EndsInDot(tail[..nameLen]) then Malformed else Host(tail[..nameLen]);
      }
      d := tail[nameLen..];
    }
    f := NoHost;
  }

  method WalkExts(all: seq<byte>, rlen: nat, start: nat) returns (w: Walk)
    requires rlen <= |all|
    ensures w == ParseExts(all, rlen, start, [])
  {
    var off, name := start, [];
    while off < rlen
      invariant ParseExts(all, rlen, off, name) == ParseExts(all, rlen, start, [])
    {
      if off + 4 > rlen {
        return Beyond;
      }
      var extension, length := U16(all[off], all[off + 1]), U16(all[off + 2], all[off + 3]);
      ghost var off0 := off;
      off := off + 4;
      if extension == 0 {
        if off + length > |all| {
          return Beyond;
        }
        var d := all[off..off + length];
        if |d| < 2 || |d| - 2 != U16(d[0], d[1]) {
          return Bad;
        }
        var f := ReadNames(d[2..]);
        if f.Malformed? {
          return Bad;
        }
        if f.Host? {
          name := f.name;
        }
      }
      off := off + length;
    }
    w := At(name);
  }

  method ReadCiphers(rec: seq<byte>, off: nat, n: nat) returns (cs: seq<nat>)
    requires off + 2 * n <= |rec|
    ensures cs == Ciphers(rec, off, n)
  {
    cs := [];
    for i := 0 to n
      invariant |cs| == i && forall j :: 0 <= j < i ==> cs[j] == U16(rec[off + 2 * j], rec[off + 2 * j + 1])
    {
      cs := cs + [U16(rec[off + 2 * i], rec[off + 1 + 2 * i])];
    }
  }

  /** The session id and cipher suites, and where the extensions start. */
  method ReadFixed(rec: seq<byte>) returns (r: Fixed)
    ensures r == ParseFixed(rec)
  {
    var rlen := |rec|;
    if rlen <= 38 {
      return FixedBeyond;
    }
    var sessionIdLen := rec[38];
    if sessionIdLen > 32 || rlen < 39 + sessionIdLen as int {
      return FixedBad;
    }
    var sid := rec[39..39 + sessionIdLen as int];
    var off := 39 + sessionIdLen as int;
    if off + 2 > rlen {
      return FixedBeyond;
    }
    var cipherSuiteLen := U16(rec[off], rec[off + 1]);
    off := off + 2;
    if cipherSuiteLen % 2 == 1 || rlen - off < 2 + cipherSuiteLen {
      return FixedBad;
    }
    var ciphers := ReadCiphers(rec, off, cipherSuiteLen / 2);
    off := off + cipherSuiteLen;
    var compressionMethodsLen := rec[off];
    off := off + 1;
    if rlen - off < 1 + compressionMethodsLen as int {
      return FixedBad;
    }
    off := off + compressionMethodsLen as int;
    if off + 2 > rlen {
      return FixedBad;
    }
    var extensionsLength := U16(rec[off], rec[off + 1]);
    off := off + 2;
    if extensionsLength != rlen - off {
      return FixedBad;
    }
    r := Fixed(sid, ciphers, off);
  }

  /** Peeks at the first record of a connection.  The client's bytes stay in the stream, and the
      result depends on them alone, and on `slack`, what lies behind the record in the array. */
  method SniffClientHello(acc: BufferReader) returns (res: Sniffed, ghost slack: seq<byte>)
    requires acc.Valid()
    modifies acc.buffer, acc.buffer.buf, acc.reader
    ensures acc.Valid() && acc.View() == old(acc.View()) && acc.End() == old(acc.End())
    ensures acc.buffer.buf == old(acc.buffer.buf) || fresh(acc.buffer.buf)
    ensures !res.Hangs? ==> res == Answer(acc.View(), acc.End(), slack)
    ensures !res.Hangs? ==> (res == NotTls <==> |acc.View()| >= 1 && acc.View()[0] != 0x16)
    ensures !res.Hangs? ==> var v := acc.View();
      && (res.ReadError? <==>
            || |v| < 1
            || (v[0] == 0x16 && |v| < 5)
            || (v[0] == 0x16 && 38 <= U16(v[3], v[4]) <= 16384 && |v| < 5 + U16(v[3], v[4])))
      && (|v| >= 5 && v[0] == 0x16 && !(38 <= U16(v[3], v[4]) <= 16384) ==> res == Invalid)
    ensures old(acc.buffer.off == 0 || acc.buffer.off == acc.buffer.end) ==> !res.Hangs?
  {
    res, slack := Sniff(acc);
    AnswerExact(acc.View(), acc.End(), slack);
  }

  /** The checks of the record header. */
  method Sniff(acc: BufferReader) returns (res: Sniffed, ghost slack: seq<byte>)
    requires acc.Valid()
    modifies acc.buffer, acc.buffer.buf, acc.reader
    ensures acc.Valid() && acc.View() == old(acc.View()) && acc.End() == old(acc.End())
    ensures acc.buffer.buf == old(acc.buffer.buf) || fresh(acc.buffer.buf)
    ensures !res.Hangs? ==> res == Answer(acc.View(), acc.End(), slack)
    ensures old(acc.buffer.off == 0 || acc.buffer.off == acc.buffer.end) ==> !res.Hangs?
  {
    slack := [];
    ghost var v := acc.View();
    var peek := acc.Peek(1);
    if peek.Stalled? {
      return Hangs, slack;
    }
    if peek.Failed? {
      return ReadError(peek.err), slack;
    }
    assert v[0] == acc.buffer.Bytes()[0];
    if acc.buffer.Bytes()[0] != 0x16 {
      return NotTls, slack;
    }
    peek := acc.Peek(5);
    if peek.Stalled? {
      return Hangs, slack;
    }
    if peek.Failed? {
      return ReadError(peek.err), slack;
    }
    var buf := acc.buffer.Bytes();
    assert v[3] == buf[3] && v[4] == buf[4];
    res, slack := SniffRecord(acc, U16(buf[3], buf[4]), v);
  }

  method SniffRecord(acc: BufferReader, rlen: nat, ghost v: seq<byte>) returns (res: Sniffed, ghost slack: seq<byte>)
    requires acc.Valid() && v == acc.View() && |v| >= 5 && v[0] == 0x16 && rlen == U16(v[3], v[4])
    modifies acc.buffer, acc.buffer.buf, acc.reader
    ensures acc.Valid() && acc.View() == v && acc.End() == old(acc.End())
    ensures acc.buffer.buf == old(acc.buffer.buf) || fresh(acc.buffer.buf)
    ensures !res.Hangs? ==> res == Answer(v, acc.End(), slack)
    ensures old(acc.buffer.off == 0 || acc.buffer.off == acc.buffer.end) ==> !res.Hangs?
  {
    slack := [];
    if rlen > MAX_RECORD || rlen < 38 {
      return Invalid, slack;
    }
    var end := rlen + 5;
    var peek := acc.Peek(end);
    if peek.Stalled? {
      return Hangs, slack;
    }
    if peek.Failed? {
      return ReadError(peek.err), slack;
    }
    var buf := acc.buffer.Bytes();
    PrefixSlice(v, buf, 5, end);
    var behind := acc.buffer.buf[acc.buffer.off + end..];
    slack := behind;
    res := ReadRecord(buf[5..end], behind);
  }

  /** The parse of a whole record. */
  method ReadRecord(clientHello: seq<byte>, behind: seq<byte>) returns (res: Sniffed)
    ensures res == ParseRecord(clientHello, behind)
  {
    var fixed := ReadFixed(clientHello);
    if fixed.FixedBad? {
      return Invalid;
    }
    if fixed.FixedBeyond? {
      return OutOfRange;
    }
    var w := WalkExts(clientHello + behind, |clientHello|, fixed.off);
    match w {
      case At(name) => res := Sniffed(fixed.sid, fixed.ciphers, name);
      case Bad => res := Invalid;
      case Beyond => res := OutOfRange;
    }
  }
}
