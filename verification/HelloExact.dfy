/** Exactly which records the sniffer of `nio/sni.go` answers, and on which it indexes beyond its
    slice. */
module HelloExact {
  import opened Bytes
  import opened Streams
  import opened ClientHello

  // ---- the name list ----

  /** Encodable names, none of them a host name. */
  predicate NoneIsHost(ns: seq<Name>) { NamesOk(ns) && forall i :: 0 <= i < |ns| ==> ns[i].kind != 0 }

  /** `d` is names of other kinds, then the host name `h` without a trailing dot, then anything. */
  ghost predicate ShowsHost(d: seq<byte>, h: seq<byte>) {
    |h| < 0x1_0000 && !EndsInDot(h) && exists ns, tail :: StartsWith(d, ns, Name(0, h), tail)
  }

  predicate StartsWith(d: seq<byte>, ns: seq<Name>, n: Name, tail: seq<byte>) {
    NoneIsHost(ns) && |n.name| < 0x1_0000 && d == EncodeNames(ns) + EncodeName(n) + tail
  }

  /** `d` is names of other kinds only. */
  ghost predicate ShowsNone(d: seq<byte>) { exists ns :: NoneIsHost(ns) && d == EncodeNames(ns) }

  /** The parser passes over one name of another kind. */
  lemma NamePassed(n: Name, d: seq<byte>)
    requires |n.name| < 0x1_0000
    ensures ParseNames(EncodeName(n) + d) ==
      if n.kind != 0 then ParseNames(d) else if EndsInDot(n.name) then Malformed else Host(n.name)
  {
    var h, s, len := BE16(|n.name|), EncodeName(n) + d, |n.name|;
    assert s[0] == n.kind && s[1] == h[0] && s[2] == h[1];
    assert s[3..3 + len] == n.name && s[3 + len..] == d;
  }

  lemma {:induction false} NamesPassed(ns: seq<Name>, d: seq<byte>)
    requires NoneIsHost(ns)
    ensures ParseNames(EncodeNames(ns) + d) == ParseNames(d)
  {
    if ns == [] {
      assert EncodeNames(ns) + d == d;
    } else {
      Regroup(EncodeName(ns[0]), EncodeNames(ns[1..]), d);
      NamePassed(ns[0], EncodeNames(ns[1..]) + d);
      NamesPassed(ns[1..], d);
    }
  }

  /** The name at the front of a list that is long enough. */
  lemma FrontName(d: seq<byte>) returns (n: Name, rest: seq<byte>)
    requires |d| >= 3 && |d| - 3 >= U16(d[1], d[2])
    ensures |n.name| < 0x1_0000 && n.kind == d[0] && d == EncodeName(n) + rest
    ensures n.name == d[3..3 + U16(d[1], d[2])] && rest == d[3 + U16(d[1], d[2])..]
  {
    var len := U16(d[1], d[2]);
    n, rest := Name(d[0], d[3..3 + len]), d[3 + len..];
    Pair16(d, 1);
    assert d == [d[0]] + d[1..3] + d[3..3 + len] + d[3 + len..];
  }

  /** What the parser finds is there. */
  lemma {:induction false} NamesFound(d: seq<byte>) returns (ns: seq<Name>, tail: seq<byte>)
    ensures ParseNames(d).NoHost? ==> NoneIsHost(ns) && d == EncodeNames(ns)
    ensures ParseNames(d).Host? ==>
      var h := ParseNames(d).name; |h| < 0x1_0000 && !EndsInDot(h) && StartsWith(d, ns, Name(0, h), tail)
    decreases |d|
  {
    ns, tail := [], [];
    if d != [] && !ParseNames(d).Malformed? {
      var n, rest := FrontName(d);
      if n.kind != 0 {
        ns, tail := NamesFound(rest);
        NamesGrow(n, ns, rest, tail, ParseNames(d));
        ns := [n] + ns;
      } else {
        tail := rest;
        assert d == EncodeNames([]) + EncodeName(n) + rest;
      }
    }
  }

  /** One more name in front. */
  lemma NamesGrow(n: Name, ns: seq<Name>, rest: seq<byte>, tail: seq<byte>, f: Found)
    requires |n.name| < 0x1_0000 && n.kind != 0
    requires f.NoHost? ==> NoneIsHost(ns) && rest == EncodeNames(ns)
    requires f.Host? ==> StartsWith(rest, ns, Name(0, f.name), tail)
    ensures f.NoHost? ==> NoneIsHost([n] + ns) && EncodeName(n) + rest == EncodeNames([n] + ns)
    ensures f.Host? ==> StartsWith(EncodeName(n) + rest, [n] + ns, Name(0, f.name), tail)
  {
    var all := [n] + ns;
    assert all[1..] == ns && all[0] == n;
    if f.Host? {
      var e, x, y := EncodeName(n), EncodeNames(ns), EncodeName(Name(0, f.name));
      assert e + (x + y + tail) == (e + x) + y + tail;
    }
  }

  /** The name loop answers exactly by what the list shows. */
  lemma NamesExact(d: seq<byte>)
    ensures ParseNames(d).NoHost? <==> ShowsNone(d)
    ensures forall h :: ParseNames(d) == Host(h) <==> ShowsHost(d, h)
  {
    var ns, tail := NamesFound(d);
    if qs :| NoneIsHost(qs) && d == EncodeNames(qs) {
      NamesPassed(qs, []);
      assert EncodeNames(qs) + [] == d;
    }
    forall h | ShowsHost(d, h) ensures ParseNames(d) == Host(h) { HostIsFound(d, h); }
  }

  lemma HostIsFound(d: seq<byte>, h: seq<byte>)
    requires ShowsHost(d, h)
    ensures ParseNames(d) == Host(h)
  {
    var ns, tail :| StartsWith(d, ns, Name(0, h), tail);
    var n := Name(0, h);
    Regroup(EncodeNames(ns), EncodeName(n), tail);
    NamesPassed(ns, EncodeName(n) + tail);
    NamePassed(n, tail);
  }

  /** The body of a server_name extension: a length, and a list that shows `f`. */
  ghost predicate Shows(b: seq<byte>, f: Found) {
    |b| >= 2 && U16(b[0], b[1]) == |b| - 2 &&
    match f
    case NoHost => ShowsNone(b[2..])
    case Host(h) => ShowsHost(b[2..], h)
    case Malformed => false
  }

  lemma ShowsExact(b: seq<byte>, f: Found)
    ensures Shows(b, f) <==> !f.Malformed? && ParseNameList(b) == f
  {
    if |b| >= 2 { NamesExact(b[2..]); }
  }

  // ---- the extension loop ----

  function TypeAt(all: seq<byte>, at: nat): nat
    requires at + 4 <= |all|
  { U16(all[at], all[at + 1]) }

  function LenAt(all: seq<byte>, at: nat): nat
    requires at + 4 <= |all|
  { U16(all[at + 2], all[at + 3]) }

  /** The host name in the extension at `at`, which may reach behind the record. */
  function FoundAt(all: seq<byte>, at: nat): Found
    requires at + 4 <= |all| && (TypeAt(all, at) == 0 ==> at + 4 + LenAt(all, at) <= |all|)
  { if TypeAt(all, at) != 0 then NoHost else ParseNameList(all[at + 4..at + 4 + LenAt(all, at)]) }

  /** No extension can be read at `at`: its header is cut off by the end of the record, or it is a
      server_name that runs past the array. */
  predicate Stuck(all: seq<byte>, rlen: nat, at: nat)
    requires rlen <= |all|
  {
    at < rlen && (at + 4 > rlen || (TypeAt(all, at) == 0 && at + 4 + LenAt(all, at) > |all|))
  }

  predicate Readable(all: seq<byte>, rlen: nat, at: nat)
    requires rlen <= |all|
  { at < rlen && !Stuck(all, rlen, at) }

  /** A server_name with a malformed list. */
  predicate Spoils(all: seq<byte>, rlen: nat, at: nat)
    requires rlen <= |all|
  { Readable(all, rlen, at) && FoundAt(all, at).Malformed? }

  /** An extension that is read although it runs past the record, and what it shows. */
  ghost predicate Overruns(all: seq<byte>, rlen: nat, at: nat, f: Found)
    requires rlen <= |all|
  {
    && Readable(all, rlen, at) && at + 4 + LenAt(all, at) > rlen
    && if TypeAt(all, at) != 0 then f == NoHost else Shows(all[at + 4..at + 4 + LenAt(all, at)], f)
  }

  /** The same by what the parser finds. */
  predicate PastEnd(all: seq<byte>, rlen: nat, at: nat)
    requires rlen <= |all|
  { Readable(all, rlen, at) && !FoundAt(all, at).Malformed? && at + 4 + LenAt(all, at) > rlen }

  lemma OverrunsExact(all: seq<byte>, rlen: nat, at: nat, f: Found)
    requires rlen <= |all| && Readable(all, rlen, at)
    ensures Overruns(all, rlen, at, f) <==> PastEnd(all, rlen, at) && f == FoundAt(all, at)
  {
    if TypeAt(all, at) == 0 { ShowsExact(all[at + 4..at + 4 + LenAt(all, at)], f); }
  }

  /** An extension in parts, with the host name it shows if it is a server_name. */
  ghost predicate Sound(r: Raw) {
    |r.t| == 2 && Is16(r.l, |r.b|) && if U16(r.t[0], r.t[1]) != 0 then r.f == NoHost else Shows(r.b, r.f)
  }

  lemma SoundExact(r: Raw)
    ensures Sound(r) <==> RawOk(r) && !r.f.Malformed?
  {
    ShowsExact(r.b, r.f);
  }

  /** The bytes from `off` start with the whole extensions `rs`, none of them malformed. */
  ghost predicate Passes(all: seq<byte>, rlen: nat, off: nat, rs: seq<Raw>) {
    && off <= rlen <= |all| && Flat(rs) <= all[off..rlen]
    && forall i :: 0 <= i < |rs| ==> Sound(rs[i])
  }

  function NameAfter(rs: seq<Raw>, name: seq<byte>): seq<byte> {
    if rs == [] then name else NameAfter(rs[1..], Pick(rs[0].f, name))
  }

  /** The loop ends at `at` with the name `found`: at the end of the record, or in an extension that
      runs past it. */
  ghost predicate Ends(all: seq<byte>, rlen: nat, at: nat, name: seq<byte>, found: seq<byte>)
    requires rlen <= |all|
  {
    || (at == rlen && found == name)
    || (exists f :: Overruns(all, rlen, at, f) && found == Pick(f, name))
  }

  /** The loop passes over whole extensions. */
  lemma {:induction false} PassOver(all: seq<byte>, rlen: nat, off: nat, rs: seq<Raw>, name: seq<byte>)
    requires Passes(all, rlen, off, rs)
    ensures off + |Flat(rs)| <= rlen
    ensures ParseExts(all, rlen, off, name) == ParseExts(all, rlen, off + |Flat(rs)|, NameAfter(rs, name))
    decreases |rs|
  {
    PassesFit(all, rlen, off, rs);
    if rs != [] {
      var r, rest := rs[0], rs[1..];
      var next, name' := off + 4 + |r.b|, Pick(r.f, name);
      PassFirst(all, rlen, off, rs, name);
      calc {
        ParseExts(all, rlen, off, name);
        ParseExts(all, rlen, next, name');
        { PassOver(all, rlen, next, rest, name'); }
        ParseExts(all, rlen, next + |Flat(rest)|, NameAfter(rest, name'));
        ParseExts(all, rlen, off + |Flat(rs)|, NameAfter(rs, name));
      }
    }
  }

  lemma PassesFit(all: seq<byte>, rlen: nat, off: nat, rs: seq<Raw>)
    requires Passes(all, rlen, off, rs)
    ensures off + |Flat(rs)| <= rlen
  {
  }

  lemma PassFirst(all: seq<byte>, rlen: nat, off: nat, rs: seq<Raw>, name: seq<byte>)
    requires Passes(all, rlen, off, rs) && rs != []
    ensures var r, rest := rs[0], rs[1..]; var next := off + 4 + |r.b|;
      && Passes(all, rlen, next, rest) && next + |Flat(rest)| == off + |Flat(rs)|
      && ParseExts(all, rlen, off, name) == ParseExts(all, rlen, next, Pick(r.f, name))
  {
    SoundExact(rs[0]);
    PassOne(all, rlen, off, rs[0], Flat(rs[1..]), name);
  }

  lemma PassOne(all: seq<byte>, rlen: nat, off: nat, r: Raw, flat: seq<byte>, name: seq<byte>)
    requires off <= rlen <= |all| && RawOk(r) && !r.f.Malformed? && (r.t + r.l + r.b) + flat <= all[off..rlen]
    ensures var next := off + 4 + |r.b|;
      && next <= rlen && flat <= all[next..rlen]
      && ParseExts(all, rlen, off, name) == ParseExts(all, rlen, next, Pick(r.f, name))
  {
    var head := r.t + r.l + r.b;
    var tail := all[off..rlen][|head + flat|..];
    assert all[off..rlen] == (head + flat) + tail;
    Regroup(head, flat, tail);
    ExtStep(all, rlen, off, r.t, r.l, r.b, flat + tail, name, r.f);
  }

  lemma Regroup(a: seq<byte>, b: seq<byte>, c: seq<byte>)
    ensures (a + b) + c == a + (b + c)
  {
  }

  /** What the loop does where whole extensions end. */
  lemma AtStop(all: seq<byte>, rlen: nat, at: nat, name: seq<byte>)
    requires at <= rlen <= |all|
    ensures Stuck(all, rlen, at) ==> ParseExts(all, rlen, at, name) == Beyond
    ensures Spoils(all, rlen, at) ==> ParseExts(all, rlen, at, name) == Bad
    ensures at == rlen ==> ParseExts(all, rlen, at, name) == At(name)
    ensures PastEnd(all, rlen, at) ==> ParseExts(all, rlen, at, name) == At(Pick(FoundAt(all, at), name))
  {
  }

  lemma AtEnd(all: seq<byte>, rlen: nat, at: nat, name: seq<byte>, found: seq<byte>)
    requires at <= rlen <= |all| && Ends(all, rlen, at, name, found)
    ensures ParseExts(all, rlen, at, name) == At(found)
  {
    AtStop(all, rlen, at, name);
    if at < rlen {
      var f :| Overruns(all, rlen, at, f) && found == Pick(f, name);
      OverrunsExact(all, rlen, at, f);
    }
  }

  /** The extension at `at`, if it lies in the record. */
  lemma RawAt(all: seq<byte>, rlen: nat, at: nat) returns (r: Raw)
    requires rlen <= |all| && Readable(all, rlen, at) && at + 4 + LenAt(all, at) <= rlen
    ensures RawOk(r) && r.f == FoundAt(all, at) && |r.b| == LenAt(all, at)
    ensures all[at..rlen] == (r.t + r.l + r.b) + all[at + 4 + |r.b|..rlen]
  {
    var len := LenAt(all, at);
    r := Raw(all[at..at + 2], all[at + 2..at + 4], all[at + 4..at + 4 + len], FoundAt(all, at));
    assert all[at..rlen] == all[at..at + 2] + all[at + 2..at + 4] + all[at + 4..at + 4 + len] + all[at + 4 + len..rlen];
  }

  /** There is always a longest list of whole extensions, and the loop stops behind it. */
  lemma {:induction false} Longest(all: seq<byte>, rlen: nat, off: nat) returns (rs: seq<Raw>)
    requires off <= rlen <= |all|
    ensures Passes(all, rlen, off, rs)
    ensures var at := off + |Flat(rs)|;
      at == rlen || Stuck(all, rlen, at) || Spoils(all, rlen, at) || PastEnd(all, rlen, at)
    decreases rlen - off
  {
    rs := [];
    if Readable(all, rlen, off) && !Spoils(all, rlen, off) && !PastEnd(all, rlen, off) {
      var r := RawAt(all, rlen, off);
      var next := off + 4 + |r.b|;
      var rest := Longest(all, rlen, next);
      rs := [r] + rest;
      assert rs[1..] == rest;
      SoundExact(r);
      PrefixJoin(r.t + r.l + r.b, Flat(rest), all[next..rlen]);
    }
  }

  lemma PrefixJoin(a: seq<byte>, b: seq<byte>, c: seq<byte>)
    requires b <= c
    ensures a + b <= a + c
  {
  }

  /** Behind the extensions `rs`, none malformed, no further one can be read. */
  ghost predicate StuckAfter(all: seq<byte>, rlen: nat, off: nat, rs: seq<Raw>) {
    Passes(all, rlen, off, rs) && Stuck(all, rlen, off + |Flat(rs)|)
  }

  /** Behind the extensions `rs`, none malformed, the loop ends with the name `found`. */
  ghost predicate EndsAfter(all: seq<byte>, rlen: nat, off: nat, rs: seq<Raw>, name: seq<byte>, found: seq<byte>) {
    Passes(all, rlen, off, rs) && Ends(all, rlen, off + |Flat(rs)|, NameAfter(rs, name), found)
  }

  lemma StuckGives(all: seq<byte>, rlen: nat, off: nat, rs: seq<Raw>, name: seq<byte>)
    requires StuckAfter(all, rlen, off, rs)
    ensures ParseExts(all, rlen, off, name) == Beyond
  {
    PassOver(all, rlen, off, rs, name);
    AtStop(all, rlen, off + |Flat(rs)|, NameAfter(rs, name));
  }

  lemma EndsGives(all: seq<byte>, rlen: nat, off: nat, rs: seq<Raw>, name: seq<byte>, found: seq<byte>)
    requires EndsAfter(all, rlen, off, rs, name, found)
    ensures ParseExts(all, rlen, off, name) == At(found)
  {
    PassOver(all, rlen, off, rs, name);
    AtEnd(all, rlen, off + |Flat(rs)|, NameAfter(rs, name), found);
  }

  /** Every walk ends in one of three ways. */
  lemma WalkEnds(all: seq<byte>, rlen: nat, off: nat, name: seq<byte>) returns (rs: seq<Raw>, found: seq<byte>)
    requires off <= rlen <= |all|
    ensures match ParseExts(all, rlen, off, name)
      case Beyond => StuckAfter(all, rlen, off, rs)
      case Bad => Passes(all, rlen, off, rs) && Spoils(all, rlen, off + |Flat(rs)|)
      case At(n) => n == found && EndsAfter(all, rlen, off, rs, name, found)
  {
    rs := Longest(all, rlen, off);
    var at, name' := off + |Flat(rs)|, NameAfter(rs, name);
    found := name';
    if Stuck(all, rlen, at) {
      StuckGives(all, rlen, off, rs, name);
    } else if Spoils(all, rlen, at) {
      SpoilsGives(all, rlen, off, rs, name);
    } else {
      if at < rlen {
        var f := FoundAt(all, at);
        found := Pick(f, name');
        OverrunsExact(all, rlen, at, f);
      }
      EndsGives(all, rlen, off, rs, name, found);
    }
  }

  lemma SpoilsGives(all: seq<byte>, rlen: nat, off: nat, rs: seq<Raw>, name: seq<byte>)
    requires Passes(all, rlen, off, rs) && Spoils(all, rlen, off + |Flat(rs)|)
    ensures ParseExts(all, rlen, off, name) == Bad
  {
    PassOver(all, rlen, off, rs, name);
    AtStop(all, rlen, off + |Flat(rs)|, NameAfter(rs, name));
  }

  /** The extension loop indexes or slices out of range exactly when behind some whole extensions,
      none malformed, no further one can be read. */
  lemma ExtsBeyondExact(all: seq<byte>, rlen: nat, off: nat, name: seq<byte>)
    requires off <= rlen <= |all|
    ensures ParseExts(all, rlen, off, name) == Beyond <==> exists rs :: StuckAfter(all, rlen, off, rs)
  {
    var rs, found := WalkEnds(all, rlen, off, name);
    if qs :| StuckAfter(all, rlen, off, qs) { StuckGives(all, rlen, off, qs, name); }
  }

  /** It ends with a name exactly when behind some whole extensions, none malformed, the record ends
      or one more extension runs past it. */
  lemma ExtsAtExact(all: seq<byte>, rlen: nat, off: nat, name: seq<byte>, found: seq<byte>)
    requires off <= rlen <= |all|
    ensures ParseExts(all, rlen, off, name) == At(found) <==> exists rs :: EndsAfter(all, rlen, off, rs, name, found)
  {
    var rs, n := WalkEnds(all, rlen, off, name);
    if qs :| EndsAfter(all, rlen, off, qs, name, found) { EndsGives(all, rlen, off, qs, name, found); }
  }

  // ---- the fixed part ----

  datatype Parts = Parts(sid: seq<byte>, ciphers: seq<nat>, comp: seq<byte>, exts: seq<byte>)

  function Glued(blocks: seq<seq<byte>>): seq<byte> {
    if blocks == [] then [] else Glued(blocks[..|blocks| - 1]) + blocks[|blocks| - 1]
  }

  lemma GluedFive(a: seq<byte>, b: seq<byte>, c: seq<byte>, d: seq<byte>, e: seq<byte>)
    ensures Glued([a, b, c, d, e]) == a + b + c + d + e
  {
    assert [a, b, c, d, e][..4] == [a, b, c, d] && [a, b, c, d][..3] == [a, b, c] && [a, b, c][..2] == [a, b];
    assert [a, b][..1] == [a] && [a][..0] == [];
    assert Glued([a]) == a;
    assert Glued([a, b]) == a + b;
    assert Glued([a, b, c]) == a + b + c;
    assert Glued([a, b, c, d]) == a + b + c + d;
  }

  /** A record of these parts, behind 38 bytes of header, version and random. */
  predicate LaidOut(rec: seq<byte>, p: Parts) {
    && |p.sid| <= 32 && CiphersOk(p.ciphers) && |p.comp| < 256 && |p.exts| < 0x1_0000 && |rec| >= 38
    && rec == Glued([rec[..38], [|p.sid|] + p.sid, BE16(2 * |p.ciphers|) + EncodeCiphers(p.ciphers),
                     [|p.comp|] + p.comp, BE16(|p.exts|) + p.exts])
  }

  lemma LaidOutParses(rec: seq<byte>, p: Parts)
    requires LaidOut(rec, p)
    ensures |p.exts| <= |rec|
    ensures ParseFixed(rec) == Fixed(p.sid, p.ciphers, |rec| - |p.exts|) && rec[|rec| - |p.exts|..] == p.exts
  {
    var cs := EncodeCiphers(p.ciphers);
    GluedFive(rec[..38], [|p.sid|] + p.sid, BE16(2 * |p.ciphers|) + cs, [|p.comp|] + p.comp, BE16(|p.exts|) + p.exts);
    FixedUndo(rec, rec[..38], p.sid, BE16(2 * |p.ciphers|), cs, p.comp, BE16(|p.exts|), p.exts, p.ciphers);
  }

  lemma Pair16(s: seq<byte>, i: nat)
    requires i + 2 <= |s|
    ensures U16(s[i], s[i + 1]) < 0x1_0000 && BE16(U16(s[i], s[i + 1])) == s[i..i + 2]
  {
  }

  /** A block with a one byte length in front. */
  lemma Block8(rec: seq<byte>, i: nat, j: nat)
    requires i < j <= |rec| && rec[i] == j - i - 1
    ensures rec[i..j] == [|rec[i + 1..j]|] + rec[i + 1..j]
  {
  }

  /** A block with a two byte length in front. */
  lemma Block16(rec: seq<byte>, i: nat, j: nat)
    requires i + 2 <= j <= |rec| && U16(rec[i], rec[i + 1]) == j - i - 2
    ensures j - i - 2 < 0x1_0000 && rec[i..j] == BE16(j - i - 2) + rec[i + 2..j]
  {
    Pair16(rec, i);
    assert rec[i..j] == rec[i..i + 2] + rec[i + 2..j];
  }

  lemma {:induction false} CiphersEncode(rec: seq<byte>, off: nat, n: nat)
    requires off + 2 * n <= |rec|
    ensures (forall i :: 0 <= i < n ==> Ciphers(rec, off, n)[i] < 0x1_0000)
    ensures EncodeCiphers(Ciphers(rec, off, n)) == rec[off..off + 2 * n]
  {
    if n > 0 {
      var cs, pre := Ciphers(rec, off, n), Ciphers(rec, off, n - 1);
      CiphersEncode(rec, off, n - 1);
      assert cs[..n - 1] == pre;
      Pair16(rec, off + 2 * (n - 1));
      assert rec[off..off + 2 * n] == rec[off..off + 2 * (n - 1)] + rec[off + 2 * (n - 1)..off + 2 * n];
    }
  }

  /** The parts of a record that the checks of the fixed part let pass. */
  lemma PartsOf(rec: seq<byte>) returns (p: Parts)
    requires ParseFixed(rec).Fixed? && |rec| <= MAX_RECORD
    ensures LaidOut(rec, p) && |p.exts| <= |rec| && ParseFixed(rec) == Fixed(p.sid, p.ciphers, |rec| - |p.exts|)
  {
    var i := 39 + rec[38];
    var cl := U16(rec[i], rec[i + 1]);
    var j := i + 2 + cl;
    p := PartsAt(rec, i, cl / 2, j, j + 1 + rec[j]);
    LaidOutParses(rec, p);
  }

  lemma PartsAt(rec: seq<byte>, i: nat, n: nat, j: nat, k: nat) returns (p: Parts)
    requires 39 <= i && j == i + 2 + 2 * n && j < k && k + 2 <= |rec| <= MAX_RECORD
    requires i - 39 == rec[38] <= 32 && U16(rec[i], rec[i + 1]) == 2 * n && k - j - 1 == rec[j]
    requires U16(rec[k], rec[k + 1]) == |rec| - k - 2
    ensures LaidOut(rec, p)
  {
    p := Parts(rec[39..i], Ciphers(rec, i + 2, n), rec[j + 1..k], rec[k + 2..|rec|]);
    Block8(rec, 38, i);
    CipherBlock(rec, i, n);
    Block8(rec, j, k);
    Block16(rec, k, |rec|);
    Cut5(rec, i, j, k);
    Join5(rec, rec[..38], rec[38..i], rec[i..j], rec[j..k], rec[k..|rec|], p);
  }

  lemma CipherBlock(rec: seq<byte>, i: nat, n: nat)
    requires i + 2 + 2 * n <= |rec| && U16(rec[i], rec[i + 1]) == 2 * n
    ensures var cs := Ciphers(rec, i + 2, n);
      CiphersOk(cs) && |cs| == n && rec[i..i + 2 + 2 * n] == BE16(2 * n) + EncodeCiphers(cs)
  {
    Block16(rec, i, i + 2 + 2 * n);
    CiphersEncode(rec, i + 2, n);
  }

  lemma Join5(rec: seq<byte>, a: seq<byte>, sid: seq<byte>, cs: seq<byte>, comp: seq<byte>, exts: seq<byte>, p: Parts)
    requires |p.sid| <= 32 && CiphersOk(p.ciphers) && |p.comp| < 256 && |p.exts| < 0x1_0000 && |rec| >= 38
    requires sid == [|p.sid|] + p.sid && cs == BE16(2 * |p.ciphers|) + EncodeCiphers(p.ciphers)
    requires comp == [|p.comp|] + p.comp && exts == BE16(|p.exts|) + p.exts
    requires rec == a + sid + cs + comp + exts && a == rec[..38]
    ensures LaidOut(rec, p)
  {
    GluedFive(a, sid, cs, comp, exts);
  }

  lemma Cut5(rec: seq<byte>, i: nat, j: nat, k: nat)
    requires 38 <= i <= j <= k <= |rec|
    ensures rec == rec[..38] + rec[38..i] + rec[i..j] + rec[j..k] + rec[k..|rec|]
  {
  }

  // ---- the whole record ----

  /** The extensions `rs` of a record with parts `p` are passed, and no further one can be read. */
  ghost predicate RunsOut(rec: seq<byte>, slack: seq<byte>, p: Parts, rs: seq<Raw>) {
    LaidOut(rec, p) && |p.exts| <= |rec| && StuckAfter(rec + slack, |rec|, |rec| - |p.exts|, rs)
  }

  /** The record ends in front of the session id length, or inside the cipher list length. */
  predicate CutOff(rec: seq<byte>) {
    |rec| <= 38 || (rec[38] <= 32 && 0 <= |rec| - 39 - rec[38] < 2)
  }

  /** The sniffer indexes or slices out of range exactly when the record ends in front of the
      session id length or inside the cipher list length, or when its fixed part is sound and its
      extensions run out in the middle of one. */
  lemma OutOfRangeExact(rec: seq<byte>, slack: seq<byte>)
    requires 38 <= |rec| <= MAX_RECORD
    ensures ParseRecord(rec, slack) == OutOfRange <==> CutOff(rec) || exists p, rs :: RunsOut(rec, slack, p, rs)
  {
    FixedRange(rec);
    if ParseRecord(rec, slack) == OutOfRange && ParseFixed(rec).Fixed? {
      var p, rs := OutParts(rec, slack);
    }
    if p, rs :| RunsOut(rec, slack, p, rs) { RunsOutGives(rec, slack, p, rs); }
  }

  lemma OutParts(rec: seq<byte>, slack: seq<byte>) returns (p: Parts, rs: seq<Raw>)
    requires |rec| <= MAX_RECORD && ParseFixed(rec).Fixed? && ParseRecord(rec, slack) == OutOfRange
    ensures RunsOut(rec, slack, p, rs)
  {
    p := PartsOf(rec);
    Onward(rec, slack, p.sid, p.ciphers, |rec| - |p.exts|);
    var found;
    rs, found := WalkEnds(rec + slack, |rec|, |rec| - |p.exts|, []);
  }

  lemma RunsOutGives(rec: seq<byte>, slack: seq<byte>, p: Parts, rs: seq<Raw>)
    requires RunsOut(rec, slack, p, rs)
    ensures ParseRecord(rec, slack) == OutOfRange
  {
    LaidOutParses(rec, p);
    StuckRecord(rec, slack, p.sid, p.ciphers, |rec| - |p.exts|, rs);
  }

  lemma StuckRecord(rec: seq<byte>, slack: seq<byte>, sid: seq<byte>, ciphers: seq<nat>, off: nat, rs: seq<Raw>)
    requires ParseFixed(rec) == Fixed(sid, ciphers, off) && StuckAfter(rec + slack, |rec|, off, rs)
    ensures ParseRecord(rec, slack) == OutOfRange
  {
    Onward(rec, slack, sid, ciphers, off);
    StuckGives(rec + slack, |rec|, off, rs, []);
  }

  /** Behind a sound fixed part the extension loop decides. */
  lemma Onward(rec: seq<byte>, slack: seq<byte>, sid: seq<byte>, ciphers: seq<nat>, off: nat)
    requires ParseFixed(rec) == Fixed(sid, ciphers, off)
    ensures match ParseExts(rec + slack, |rec|, off, [])
      case At(name) => ParseRecord(rec, slack) == Sniffed(sid, ciphers, name)
      case Bad => ParseRecord(rec, slack) == Invalid
      case Beyond => ParseRecord(rec, slack) == OutOfRange
  {
  }

  /** A record with parts `p` whose extensions `rs` are passed and end with the server name `name`. */
  ghost predicate Answered(rec: seq<byte>, slack: seq<byte>, p: Parts, rs: seq<Raw>, name: seq<byte>) {
    LaidOut(rec, p) && |p.exts| <= |rec| && EndsAfter(rec + slack, |rec|, |rec| - |p.exts|, rs, [], name)
  }

  lemma AnsweredGives(rec: seq<byte>, slack: seq<byte>, p: Parts, rs: seq<Raw>, name: seq<byte>)
    requires Answered(rec, slack, p, rs, name)
    ensures ParseRecord(rec, slack) == Sniffed(p.sid, p.ciphers, name)
  {
    LaidOutParses(rec, p);
    EndedRecord(rec, slack, p.sid, p.ciphers, |rec| - |p.exts|, rs, name);
  }

  lemma EndedRecord(rec: seq<byte>, slack: seq<byte>, sid: seq<byte>, ciphers: seq<nat>, off: nat, rs: seq<Raw>, name: seq<byte>)
    requires ParseFixed(rec) == Fixed(sid, ciphers, off) && EndsAfter(rec + slack, |rec|, off, rs, [], name)
    ensures ParseRecord(rec, slack) == Sniffed(sid, ciphers, name)
  {
    Onward(rec, slack, sid, ciphers, off);
    EndsGives(rec + slack, |rec|, off, rs, [], name);
  }

  lemma AnswerParts(rec: seq<byte>, slack: seq<byte>, res: Sniffed) returns (p: Parts, rs: seq<Raw>)
    requires |rec| <= MAX_RECORD && res.Sniffed? && ParseRecord(rec, slack) == res
    ensures Answered(rec, slack, p, rs, res.name) && p.sid == res.sid && p.ciphers == res.ciphers
  {
    p := PartsOf(rec);
    Onward(rec, slack, p.sid, p.ciphers, |rec| - |p.exts|);
    var found;
    rs, found := WalkEnds(rec + slack, |rec|, |rec| - |p.exts|, []);
  }

  /** Exactly these records are answered: the converse of undoing an encoding. */
  lemma SniffedExact(rec: seq<byte>, slack: seq<byte>, res: Sniffed)
    requires |rec| <= MAX_RECORD && res.Sniffed?
    ensures ParseRecord(rec, slack) == res <==>
      exists p, rs :: Answered(rec, slack, p, rs, res.name) && p.sid == res.sid && p.ciphers == res.ciphers
  {
    if ParseRecord(rec, slack) == res {
      var p, rs := AnswerParts(rec, slack, res);
    }
    if p, rs :| Answered(rec, slack, p, rs, res.name) && p.sid == res.sid && p.ciphers == res.ciphers {
      AnsweredGives(rec, slack, p, rs, res.name);
    }
  }

  /** So a hello whose last extension announces more bytes than the record has is answered like a
      valid one, if that extension is not a server_name. */
  lemma OverrunIsAnswered(rec: seq<byte>, slack: seq<byte>, p: Parts, typ: nat, len: nat, b: seq<byte>)
    requires |rec| <= MAX_RECORD && LaidOut(rec, p) && 0 < typ < 0x1_0000 && |b| < len < 0x1_0000
    requires p.exts == BE16(typ) + BE16(len) + b
    ensures ParseRecord(rec, slack) == Sniffed(p.sid, p.ciphers, [])
  {
    LaidOutParses(rec, p);
    var all, off := rec + slack, |rec| - |p.exts|;
    var t, l := BE16(typ), BE16(len);
    assert all[off] == p.exts[0] == t[0] && all[off + 1] == p.exts[1] == t[1];
    assert all[off + 2] == p.exts[2] == l[0] && all[off + 3] == p.exts[3] == l[1];
    assert ParseExts(all, |rec|, off, []) == At([]);
  }

  /** The out-of-range condition on what the client sends. */
  lemma SniffOutOfRange(v: seq<byte>, e: Error, slack: seq<byte>)
    ensures Answer(v, e, slack) == OutOfRange <==>
      && |v| >= 5 && v[0] == 0x16 && 38 <= U16(v[3], v[4]) <= MAX_RECORD && |v| >= 5 + U16(v[3], v[4])
      && var rec := v[5..5 + U16(v[3], v[4])];
        CutOff(rec) || exists p, rs :: RunsOut(rec, slack, p, rs)
  {
    if |v| >= 5 && v[0] == 0x16 && 38 <= U16(v[3], v[4]) <= MAX_RECORD && |v| >= 5 + U16(v[3], v[4]) {
      OutOfRangeExact(v[5..5 + U16(v[3], v[4])], slack);
    }
  }
}
