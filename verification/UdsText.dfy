/** The text messages of `pkg/uds`: a command line, header lines, an empty line and the data.
    `packMeta` and `SendMessageDirect` of `uds.go` write them, `ParseMessage` of `stream.go`
    reads them. */
module UdsText {
  import opened Bytes
  import opened Streams
  import UdsFrames

  const NL: byte := 10
  const COLON: byte := 58

  type Text = seq<byte>

  /** `bytes.IndexByte`. */
  function IndexOf(s: Text, b: byte): (r: int)
    ensures -1 <= r < |s|
  {
    if s == [] then -1
    else
      var i := IndexOf(s[..|s| - 1], b);
      if i >= 0 then i else if s[|s| - 1] == b then |s| - 1 else -1
  }

  /** The first occurrence, if there is one. */
  lemma {:induction false} IndexFirst(s: Text, b: byte)
    ensures var r := IndexOf(s, b); (r == -1 <==> b !in s) && (r >= 0 ==> s[r] == b && b !in s[..r])
  {
    if s != [] {
      var init := s[..|s| - 1];
      IndexFirst(init, b);
      assert s == init + [s[|s| - 1]];
      var i := IndexOf(init, b);
      if i >= 0 { assert init[..i] == s[..i]; }
    }
  }

  lemma IndexIs(s: Text, b: byte, i: nat)
    requires i < |s| && s[i] == b && b !in s[..i]
    ensures IndexOf(s, b) == i
  {
    IndexFirst(s, b);
    assert s[i] in s;
  }

  // ---- what a message means, independently of the loop that reads it ----

  datatype Header = Header(lines: seq<Text>, rest: Text)

  /** Lines up to the first empty line, or up to the last newline. */
  function SplitHeader(s: Text): Header
    decreases |s|
  {
    var i := IndexOf(s, NL);
    if i == -1 then Header([], s)
    else if i == 0 then Header([], s[1..])
    else
      var h := SplitHeader(s[i + 1..]);
      Header([s[..i]] + h.lines, h.rest)
  }

  /** A header line with a colon. */
  predicate IsPair(line: Text) { IndexOf(line, COLON) >= 0 }

  function Key(line: Text): Text
    requires IsPair(line)
  { line[..IndexOf(line, COLON)] }

  function Value(line: Text): Text
    requires IsPair(line)
  { line[IndexOf(line, COLON) + 1..] }

  predicate AllPairs(lines: seq<Text>) { forall i :: 0 <= i < |lines| ==> IsPair(lines[i]) }

  /** `meta` with the pairs of `lines` entered one after the other. */
  function Enter(meta: map<Text, Text>, lines: seq<Text>): map<Text, Text>
    requires AllPairs(lines)
    decreases |lines|
  {
    if lines == [] then meta else Enter(meta[Key(lines[0]) := Value(lines[0])], lines[1..])
  }

  lemma EnterNext(meta: map<Text, Text>, kv: Text, lines: seq<Text>)
    ensures AllPairs([kv] + lines) <==> IsPair(kv) && AllPairs(lines)
    ensures IsPair(kv) && AllPairs(lines) ==>
      Enter(meta, [kv] + lines) == Enter(meta[Key(kv) := Value(kv)], lines)
  {
    var all := [kv] + lines;
    assert all[0] == kv && all[1..] == lines;
    if AllPairs(all) {
      forall i | 0 <= i < |lines| ensures IsPair(lines[i]) { assert lines[i] == all[i + 1]; }
    }
  }

  // ---- reading ----

  /** `Diverges` stands for the loop that meets a header line without a colon forever. */
  datatype Parsed = Parsed(cmd: Text, meta: map<Text, Text>, data: Text) | Diverges

  function Meaning(data: Text): Parsed {
    var i := IndexOf(data, NL);
    if i == -1 then Parsed(data, map[], [])
    else
      var h := SplitHeader(data[i + 1..]);
      if AllPairs(h.lines) then Parsed(data[..i], Enter(map[], h.lines), h.rest) else Diverges
  }

  /** The first line of what is left of the header; `next` is the position behind it. */
  method HeaderLine(s: Text) returns (more: bool, kv: Text, next: nat)
    ensures next <= |s|
    ensures !more ==> SplitHeader(s) == Header([], s[next..])
    ensures more ==> 0 < next && var t := SplitHeader(s[next..]); SplitHeader(s) == Header([kv] + t.lines, t.rest)
  {
    var nextLine := IndexOf(s, NL);
    if nextLine == -1 {
      assert s[0..] == s;
      return false, [], 0;
    }
    if nextLine == 0 {
      return false, [], 1;
    }
    return true, s[..nextLine], nextLine + 1;
  }

  /** Reading on from `todo` with `meta` gives the same as reading all of `h`. */
  ghost predicate OnTrack(h: Header, todo: Header, meta: map<Text, Text>) {
    && todo.rest == h.rest && (AllPairs(todo.lines) <==> AllPairs(h.lines))
    && (AllPairs(h.lines) ==> Enter(meta, todo.lines) == Enter(map[], h.lines))
  }

  lemma TrackNext(h: Header, meta: map<Text, Text>, kv: Text, t: Header)
    requires OnTrack(h, Header([kv] + t.lines, t.rest), meta)
    ensures !IsPair(kv) ==> !AllPairs(h.lines)
    ensures IsPair(kv) ==> OnTrack(h, t, meta[Key(kv) := Value(kv)])
  {
    EnterNext(meta, kv, t.lines);
  }

  /** One turn of the header loop on what is left of the message. */
  method HeaderTurn(rest: Text, meta: map<Text, Text>, ghost h: Header)
    returns (more: bool, ok: bool, meta': map<Text, Text>, next: nat)
    requires OnTrack(h, SplitHeader(rest), meta)
    ensures next <= |rest|
    ensures more ==> ok && 0 < next && OnTrack(h, SplitHeader(rest[next..]), meta')
    ensures !more ==> (ok <==> AllPairs(h.lines))
    ensures !more && ok ==> meta' == Enter(map[], h.lines) && rest[next..] == h.rest
  {
    var kv;
    more, kv, next := HeaderLine(rest);
    ok, meta' := true, meta;
    if more {
      TrackNext(h, meta, kv, SplitHeader(rest[next..]));
      var i := IndexOf(kv, COLON);
      if i < 0 {
        more, ok := false, false;
      } else {
        meta' := meta[kv[..i] := kv[i + 1..]];
      }
    }
  }

  /** The header loop, from position `start`. */
  method ParseHeader(data: Text, start: nat) returns (ok: bool, meta: map<Text, Text>, endLine: nat)
    requires start <= |data|
    ensures var h := SplitHeader(data[start..]);
      && endLine <= |data| && (ok <==> AllPairs(h.lines))
      && (ok ==> meta == Enter(map[], h.lines) && data[endLine..] == h.rest)
  {
    ok, meta, endLine := true, map[], start;
    var more, rest := true, data[start..];
    ghost var h := SplitHeader(rest);
    while more
      invariant endLine <= |data| && rest == data[endLine..]
      invariant more ==> OnTrack(h, SplitHeader(rest), meta)
      invariant !more ==> (ok <==> AllPairs(h.lines)) && (ok ==> meta == Enter(map[], h.lines) && rest == h.rest)
      decreases |rest|, more
    {
      var next;
      more, ok, meta, next := HeaderTurn(rest, meta, h);
      rest := rest[next..];
      endLine := endLine + next;
    }
  }

  /** The parser ends exactly when every header line has a colon, and then returns the meaning. */
  method ParseMessage(data: Text) returns (res: Parsed)
    ensures res == Meaning(data)
    ensures 10 !in data ==> res == Parsed(data, map[], [])
  {
    if 10 !in data { CommandOnly(data); }
    var endLine := IndexOf(data, NL);
    if endLine < 0 {
      return Parsed(data, map[], []);
    }
    var ok, meta, end := ParseHeader(data, endLine + 1);
    res := if ok then Parsed(data[..endLine], meta, data[end..]) else Diverges;
  }

  // ---- writing ----

  /** `order` is an order in which Go may iterate over `meta`. */
  predicate Iterates(order: seq<Text>, meta: map<Text, Text>) {
    && (forall i, j :: 0 <= i < j < |order| ==> order[i] != order[j])
    && (forall k :: k in meta ==> k in order) && (forall k :: k in order ==> k in meta)
  }

  function Line(k: Text, v: Text): Text { k + [COLON] + v }

  function LineList(order: seq<Text>, meta: map<Text, Text>): (r: seq<Text>)
    requires forall k :: k in order ==> k in meta
    ensures |r| == |order|
  { if order == [] then [] else [Line(order[0], meta[order[0]])] + LineList(order[1..], meta) }

  lemma {:induction false} LineAt(order: seq<Text>, meta: map<Text, Text>, i: nat)
    requires (forall k :: k in order ==> k in meta) && i < |order|
    ensures LineList(order, meta)[i] == Line(order[i], meta[order[i]])
  {
    if i > 0 { LineAt(order[1..], meta, i - 1); }
  }

  function Join(lines: seq<Text>): Text {
    if lines == [] then [] else Join(lines[..|lines| - 1]) + (lines[|lines| - 1] + [NL])
  }

  method PackMeta(meta: map<Text, Text>, order: seq<Text>) returns (r: Text)
    requires Iterates(order, meta)
    ensures r == Join(LineList(order, meta)) + [NL]
  {
    assert forall i :: 0 <= i < |order| ==> order[i] in meta;
    if |meta| == 0 {
      return [NL];
    }
    r := [];
    ghost var lines := LineList(order, meta);
    for i := 0 to |order|
      invariant r == Join(lines[..i])
    {
      assert order[i] in meta;
      LineAt(order, meta, i);
      ghost var r0 := r;
      r := r + order[i];
      r := r + [COLON];
      r := r + meta[order[i]];
      r := r + [NL];
      assert r == r0 + (lines[i] + [NL]);
      assert lines[..i + 1][..i] == lines[..i];
    }
    assert lines[..|order|] == lines;
    r := r + [NL];
  }

  // ---- round trip ----

  predicate Writable(cmd: Text, meta: map<Text, Text>) {
    && NL !in cmd
    && forall k :: k in meta ==> COLON !in k && NL !in k && NL !in meta[k]
  }

  predicate Plainly(lines: seq<Text>) { forall i :: 0 <= i < |lines| ==> lines[i] != [] && NL !in lines[i] }

  lemma {:induction false} JoinCons(lines: seq<Text>)
    requires lines != []
    ensures Join(lines) == (lines[0] + [NL]) + Join(lines[1..])
  {
    var init, last := lines[..|lines| - 1], lines[|lines| - 1] + [NL];
    if |lines| == 1 {
      assert Join(init) == [] && Join(lines[1..]) == [];
    } else {
      var tail := lines[1..];
      assert tail[..|tail| - 1] == init[1..];
      calc {
        Join(lines);
        Join(init) + last;
        { JoinCons(init); }
        ((lines[0] + [NL]) + Join(init[1..])) + last;
        (lines[0] + [NL]) + (Join(init[1..]) + last);
      }
    }
  }

  /** Splitting undoes joining. */
  lemma {:induction false} SplitJoin(lines: seq<Text>, data: Text)
    requires Plainly(lines)
    ensures SplitHeader(Join(lines) + [NL] + data) == Header(lines, data)
  {
    if lines == [] {
      assert Join(lines) + [NL] + data == [] + [NL] + data;
      FirstLine([], data);
    } else {
      var l, t := lines[0], Join(lines[1..]) + [NL] + data;
      calc {
        SplitHeader(Join(lines) + [NL] + data);
        { JoinCons(lines); assert Join(lines) + [NL] + data == l + [NL] + t; }
        SplitHeader(l + [NL] + t);
        { FirstLine(l, t); }
        Header([l] + SplitHeader(t).lines, SplitHeader(t).rest);
        { SplitJoin(lines[1..], data); }
        Header([l] + lines[1..], data);
        { assert [l] + lines[1..] == lines; }
        Header(lines, data);
      }
    }
  }

  lemma LineParts(k: Text, v: Text)
    requires COLON !in k
    ensures IsPair(Line(k, v)) && Key(Line(k, v)) == k && Value(Line(k, v)) == v
  {
    var l := Line(k, v);
    assert l[|k|] == COLON && l[..|k|] == k && l[|k| + 1..] == v;
    IndexIs(l, COLON, |k|);
  }

  /** `m` with the entries of `meta` for the keys in `order`. */
  function Merge(m: map<Text, Text>, order: seq<Text>, meta: map<Text, Text>): map<Text, Text>
    requires forall k :: k in order ==> k in meta
    decreases |order|
  {
    if order == [] then m else Merge(m[order[0] := meta[order[0]]], order[1..], meta)
  }

  lemma {:induction false} MergeIs(m: map<Text, Text>, order: seq<Text>, meta: map<Text, Text>)
    requires forall k :: k in order ==> k in meta
    ensures var r := Merge(m, order, meta);
      && (forall k :: k in r <==> k in m || k in order)
      && (forall k :: k in r ==> r[k] == if k in order then meta[k] else m[k])
    decreases |order|
  {
    if order != [] {
      MergeIs(m[order[0] := meta[order[0]]], order[1..], meta);
      assert forall k :: k in order <==> k == order[0] || k in order[1..];
    }
  }

  /** Entering the lines of `order` merges `meta`. */
  lemma {:induction false} EnterLines(m: map<Text, Text>, order: seq<Text>, meta: map<Text, Text>)
    requires forall k :: k in order ==> k in meta && COLON !in k
    ensures AllPairs(LineList(order, meta)) && Enter(m, LineList(order, meta)) == Merge(m, order, meta)
    decreases |order|
  {
    if order == [] {
      assert LineList(order, meta) == [];
    } else {
      var k, rest := order[0], order[1..];
      var l, ls := Line(k, meta[k]), LineList(rest, meta);
      LineParts(k, meta[k]);
      EnterLines(m[k := meta[k]], rest, meta);
      EnterNext(m, l, ls);
    }
  }

  lemma MergeAll(order: seq<Text>, meta: map<Text, Text>)
    requires Iterates(order, meta)
    ensures Merge(map[], order, meta) == meta
  {
    MergeIs(map[], order, meta);
  }

  function TextOf(cmd: Text, meta: map<Text, Text>, order: seq<Text>, data: Text): Text
    requires Iterates(order, meta)
  { cmd + [NL] + (Join(LineList(order, meta)) + [NL]) + data }

  /** A message with header `lines`, read back. */
  lemma ParseWhole(cmd: Text, lines: seq<Text>, data: Text)
    requires NL !in cmd && Plainly(lines) && AllPairs(lines)
    ensures Meaning(cmd + [NL] + (Join(lines) + [NL] + data)) == Parsed(cmd, Enter(map[], lines), data)
  {
    FirstLine(cmd, Join(lines) + [NL] + data);
    SplitJoin(lines, data);
  }

  /** Parsing undoes writing, in every iteration order of the map. */
  lemma ParseUndoesWrite(cmd: Text, meta: map<Text, Text>, order: seq<Text>, data: Text)
    requires Writable(cmd, meta) && Iterates(order, meta)
    ensures Meaning(TextOf(cmd, meta, order, data)) == Parsed(cmd, meta, data)
  {
    var lines := LineList(order, meta);
    calc {
      Meaning(TextOf(cmd, meta, order, data));
      { Regroup(cmd, Join(lines), data); }
      Meaning(cmd + [NL] + (Join(lines) + [NL] + data));
      { LinesPlain(cmd, meta, order); EnterLines(map[], order, meta); ParseWhole(cmd, lines, data); }
      Parsed(cmd, Merge(map[], order, meta), data);
      { MergeAll(order, meta); }
      Parsed(cmd, meta, data);
    }
  }

  lemma Regroup(cmd: Text, head: Text, data: Text)
    ensures cmd + [NL] + (head + [NL]) + data == cmd + [NL] + (head + [NL] + data)
  {
  }

  lemma LinesPlain(cmd: Text, meta: map<Text, Text>, order: seq<Text>)
    requires Writable(cmd, meta) && Iterates(order, meta)
    ensures Plainly(LineList(order, meta))
  {
    var lines := LineList(order, meta);
    forall i | 0 <= i < |lines| ensures lines[i] != [] && NL !in lines[i] {
      LineAt(order, meta, i);
      assert order[i] in meta;
    }
  }

  /** The command is what precedes the first newline. */
  lemma FirstLine(cmd: Text, tail: Text)
    requires NL !in cmd
    ensures var s := cmd + [NL] + tail; IndexOf(s, NL) == |cmd| && s[..|cmd|] == cmd && s[|cmd| + 1..] == tail
  {
    var s := cmd + [NL] + tail;
    assert s[..|cmd|] == cmd;
    IndexIs(s, NL, |cmd|);
  }

  /** Lines in front of any text are split off it. */
  lemma {:induction false} SplitPrefix(lines: seq<Text>, s: Text)
    requires Plainly(lines)
    ensures SplitHeader(Join(lines) + s) == Header(lines + SplitHeader(s).lines, SplitHeader(s).rest)
  {
    var h := SplitHeader(s);
    if lines == [] {
      assert Join(lines) + s == s && lines + h.lines == h.lines;
    } else {
      var l, t := lines[0], Join(lines[1..]) + s;
      calc {
        SplitHeader(Join(lines) + s);
        { JoinCons(lines); assert Join(lines) + s == l + [NL] + t; }
        SplitHeader(l + [NL] + t);
        { FirstLine(l, t); }
        Header([l] + SplitHeader(t).lines, SplitHeader(t).rest);
        { SplitPrefix(lines[1..], s); }
        Header([l] + (lines[1..] + h.lines), h.rest);
        { assert [l] + (lines[1..] + h.lines) == lines + h.lines; }
        Header(lines + h.lines, h.rest);
      }
    }
  }

  /** What follows the first newline is header and data. */
  lemma MeaningOf(cmd: Text, tail: Text)
    requires NL !in cmd
    ensures var h := SplitHeader(tail);
      Meaning(cmd + [NL] + tail) == if AllPairs(h.lines) then Parsed(cmd, Enter(map[], h.lines), h.rest) else Diverges
  {
    FirstLine(cmd, tail);
  }

  /** A message without a newline is a command with nothing else. */
  lemma CommandOnly(data: Text)
    requires 10 !in data
    ensures Meaning(data) == Parsed(data, map[], [])
  {
    IndexFirst(data, NL);
  }

  /** A header that is not ended by an empty line: what follows its last line is the data. */
  lemma OpenHeader(cmd: Text, lines: seq<Text>, tail: Text)
    requires 10 !in cmd && Plainly(lines) && AllPairs(lines) && 10 !in tail
    ensures Meaning(cmd + [10] + (Join(lines) + tail)) == Parsed(cmd, Enter(map[], lines), tail)
  {
    IndexFirst(tail, NL);
    SplitPrefix(lines, tail);
    assert lines + [] == lines;
    MeaningOf(cmd, Join(lines) + tail);
  }

  /** A header line without a colon keeps the parser in its loop, whatever follows. */
  lemma NoColonDiverges(cmd: Text, lines: seq<Text>, line: Text, rest: Text)
    requires 10 !in cmd && Plainly(lines) && line != [] && 10 !in line && 58 !in line
    ensures Meaning(cmd + [10] + (Join(lines) + (line + [10] + rest))) == Diverges
  {
    var tail := line + [NL] + rest;
    MeaningOf(cmd, Join(lines) + tail);
    assert !AllPairs(SplitHeader(Join(lines) + tail).lines) by {
      SplitPrefix(lines, tail);
      FirstLine(line, rest);
      IndexFirst(line, COLON);
      assert SplitHeader(Join(lines) + tail).lines[|lines|] == line;
    }
  }

  /** A later line with the same key replaces an earlier one; key and value are what stands before
      and behind the first colon. */
  lemma {:induction false} LaterLineWins(meta: map<Text, Text>, lines: seq<Text>, k: Text, v: Text)
    requires AllPairs(lines) && 58 !in k
    ensures AllPairs(lines + [k + [58] + v]) && Enter(meta, lines + [k + [58] + v]) == Enter(meta, lines)[k := v]
    decreases |lines|
  {
    var l := k + [58] + v;
    assert l[..|k|] == k && l[|k| + 1..] == v;
    IndexIs(l, COLON, |k|);
    var all := lines + [l];
    assert forall i :: 0 <= i < |all| ==> IsPair(all[i]);
    if lines == [] {
      assert all[1..] == [];
    } else {
      LaterLineWins(meta[Key(lines[0]) := Value(lines[0])], lines[1..], k, v);
      assert all[1..] == lines[1..] + [l];
    }
  }

  lemma FlattenFour(a: Text, b: Text, c: Text, d: Text)
    ensures UdsFrames.Flatten([a, b, c, d]) == a + b + c + d
  {
    var p := [a, b, c, d];
    assert p[..3] == [a, b, c] && [a, b, c][..2] == [a, b] && [a, b][..1] == [a] && [a][..0] == [];
    assert UdsFrames.Flatten([a]) == a;
    assert UdsFrames.Flatten([a, b]) == a + b;
    assert UdsFrames.Flatten([a, b, c]) == a + b + c;
  }

  /** A message sent with `SendMessageDirect` is what the other side parses, however the socket
      cuts it into reads. */
  method SendAndParse(cmd: Text, meta: map<Text, Text>, order: seq<Text>, data: Text, cuts: seq<nat>,
      takesByte: bool) returns (res: Parsed)
    requires Writable(cmd, meta) && Iterates(order, meta)
    requires |TextOf(cmd, meta, order, data)| <= UdsFrames.MAX_PAYLOAD
    requires UdsFrames.Plain(Cut(UdsFrames.Encode(TextOf(cmd, meta, order, data)), cuts))
    ensures res == Parsed(cmd, meta, data)
  {
    var sink := new Sink([]);
    var head := PackMeta(meta, order);
    var parts := [cmd, [NL], head, data];
    ghost var text := TextOf(cmd, meta, order, data);
    FlattenFour(cmd, [NL], head, data);
    var n, err := UdsFrames.SendFrameLenBinary(sink, parts);
    assert sink.bytes == UdsFrames.Encode(text);
    CutContent(sink.bytes, cuts);
    var con := new UdsFrames.UnixSocket(Cut(sink.bytes, cuts));
    UdsFrames.PlainIsHeard(con.script);
    var uds := new UdsFrames.UdsConn(con, takesByte);
    UdsFrames.DecodeEncode(text, []);
    assert UdsFrames.Encode(text) + [] == UdsFrames.Encode(text);
    var msg := uds.NextMessage();
    ParseUndoesWrite(cmd, meta, order, data);
    res := ParseMessage(msg.payload);
  }
}
