/**
 The journal file format: canonical records, one per line, each carrying its sequence number and the
 digest of the line before it, read back with an exact check and possibly a torn last line.
*/
module Journals {
  import opened Options

  type Byte = b: int | 0 <= b < 256
  type Bytes = seq<Byte>

  const NEWLINE: Byte := 10
  const MAX_EVENT_BYTES: nat := 1024 * 1024
  const MAX_JOURNAL_BYTES: nat := 128 * 1024 * 1024

  /** A collision-free digest, identified with what was digested. */
  datatype Hash = Sha256(preimage: Bytes)

  /** What the writer of an event supplies. */
  datatype Body = Body(timestamp: int, name: string, trial: Option<string>, attempt: Option<string>, data: string)

  datatype Event = Event(sequence: int, previous: Option<Hash>, body: Body)

  /** The canonical encoder of events and the model parser of lines. */
  datatype Codec = Codec(encode: Event -> Bytes, parse: Bytes -> Option<Event>)

  /** Parsing inverts encoding, and an encoding contains no newline. */
  ghost predicate Lawful(c: Codec) {
    forall e: Event :: c.parse(c.encode(e)) == Some(e) && NEWLINE !in c.encode(e)
  }

  /** The pieces of a byte string between its newlines: at least one. */
  function SplitLines(content: Bytes): (lines: seq<Bytes>)
    ensures |lines| > 0
  {
    if content == [] then [[]]
    else
      var rest := SplitLines(content[1..]);
      if content[0] == NEWLINE then [[]] + rest else [[content[0]] + rest[0]] + rest[1..]
  }

  function JoinLines(lines: seq<Bytes>): Bytes
    requires |lines| > 0
  {
    if |lines| == 1 then lines[0] else lines[0] + [NEWLINE] + JoinLines(lines[1..])
  }

  lemma {:induction false} SplitLinesJoin(content: Bytes)
    ensures JoinLines(SplitLines(content)) == content
    ensures forall i :: 0 <= i < |SplitLines(content)| ==> NEWLINE !in SplitLines(content)[i]
  {
    if content != [] {
      SplitLinesJoin(content[1..]);
      var rest := SplitLines(content[1..]);
      if content[0] == NEWLINE {
        JoinMore(rest);
      } else {
        JoinLonger(content[0], rest);
      }
    }
  }

  lemma JoinLonger(b: Byte, rest: seq<Bytes>)
    requires |rest| > 0
    ensures JoinLines([[b] + rest[0]] + rest[1..]) == [b] + JoinLines(rest)
  {
    var longer := [[b] + rest[0]] + rest[1..];
    assert longer[1..] == rest[1..];
    if |rest| > 1 {
      Associative([b], rest[0], [NEWLINE]);
      Associative([b], rest[0] + [NEWLINE], JoinLines(rest[1..]));
    }
  }

  lemma JoinMore(rest: seq<Bytes>)
    requires |rest| > 0
    ensures JoinLines([[]] + rest) == [NEWLINE] + JoinLines(rest)
  {
    assert ([[]] + rest)[1..] == rest;
  }

  lemma {:induction false} SplitLinesFirst(line: Bytes, rest: Bytes)
    requires NEWLINE !in line
    ensures SplitLines(line + [NEWLINE] + rest) == [line] + SplitLines(rest)
  {
    var content := line + [NEWLINE] + rest;
    if line == [] {
      assert content[1..] == rest;
    } else {
      SplitLinesFirst(line[1..], rest);
      assert content[1..] == line[1..] + [NEWLINE] + rest;
      assert content[0] == line[0] && [line[0]] + line[1..] == line;
    }
  }

  lemma {:induction false} SplitLinesNone(tail: Bytes)
    requires NEWLINE !in tail
    ensures SplitLines(tail) == [tail]
  {
    if tail != [] {
      SplitLinesNone(tail[1..]);
      assert [tail[0]] + tail[1..] == tail;
    }
  }

  /** The bytes of the lines of some events. */
  ghost function EncodeAll(c: Codec, events: seq<Event>): Bytes {
    if events == [] then [] else c.encode(events[0]) + [NEWLINE] + EncodeAll(c, events[1..])
  }

  lemma EncodeAllHead(c: Codec, events: seq<Event>)
    requires events != []
    ensures EncodeAll(c, events) == c.encode(events[0]) + [NEWLINE] + EncodeAll(c, events[1..])
  {
  }

  lemma Associative(x: Bytes, y: Bytes, z: Bytes)
    ensures x + (y + z) == x + y + z
  {
  }

  lemma {:induction false} EncodeAllAppend(c: Codec, a: seq<Event>, b: seq<Event>)
    ensures EncodeAll(c, a + b) == EncodeAll(c, a) + EncodeAll(c, b)
  {
    if a == [] {
      assert a + b == b;
    } else {
      EncodeAllAppend(c, a[1..], b);
      EncodeAllHead(c, a + b);
      EncodeAllHead(c, a);
      assert (a + b)[1..] == a[1..] + b;
      Associative(c.encode(a[0]) + [NEWLINE], EncodeAll(c, a[1..]), EncodeAll(c, b));
    }
  }

  lemma EncodeAllOne(c: Codec, events: seq<Event>, e: Event)
    ensures EncodeAll(c, events + [e]) == EncodeAll(c, events) + (c.encode(e) + [NEWLINE])
  {
    EncodeAllAppend(c, events, [e]);
    assert EncodeAll(c, [e]) == c.encode(e) + [NEWLINE];
  }

  function LastHash(c: Codec, events: seq<Event>): Option<Hash> {
    if events == [] then None else Some(Sha256(c.encode(events[|events| - 1])))
  }

  /** The event may follow the given ones. */
  predicate Follows(c: Codec, events: seq<Event>, e: Event) {
    && e.sequence == |events| + 1 && e.previous == LastHash(c, events)
    && |c.encode(e)| + 1 <= MAX_EVENT_BYTES
  }

  ghost predicate ValidChain(c: Codec, events: seq<Event>) {
    forall i :: 0 <= i < |events| ==> Follows(c, events[..i], events[i])
  }

  /** A chain is valid exactly if its events are numbered from one on, each names the digest of the event
      before it, and none is too long. */
  lemma ChainIsNumbered(c: Codec, events: seq<Event>)
    ensures ValidChain(c, events) <==>
            forall i :: 0 <= i < |events| ==>
              && events[i].sequence == i + 1
              && events[i].previous == (if i == 0 then None else Some(Sha256(c.encode(events[i - 1]))))
              && |c.encode(events[i])| < MAX_EVENT_BYTES
  {
    forall i | 0 <= i < |events|
      ensures LastHash(c, events[..i]) == if i == 0 then None else Some(Sha256(c.encode(events[i - 1])))
    {
      assert i > 0 ==> events[..i][i - 1] == events[i - 1];
    }
    if ValidChain(c, events) {
      forall i | 0 <= i < |events| ensures Follows(c, events[..i], events[i]) {}
    }
  }

  lemma ChainGrows(c: Codec, events: seq<Event>, e: Event)
    requires ValidChain(c, events)
    ensures ValidChain(c, events + [e]) <==> Follows(c, events, e)
  {
    var more := events + [e];
    assert more[..|events|] == events;
    forall i | 0 <= i < |events| ensures Follows(c, more[..i], more[i]) {
      assert more[..i] == events[..i];
    }
  }

  lemma ChainPrefix(c: Codec, events: seq<Event>, n: nat)
    requires ValidChain(c, events) && n <= |events|
    ensures ValidChain(c, events[..n])
  {
    forall i | 0 <= i < n ensures Follows(c, events[..n][..i], events[..n][i]) {
      assert events[..n][..i] == events[..i];
    }
  }

  /** The content is exactly the lines of a valid chain followed by a torn line. */
  ghost predicate Recorded(c: Codec, content: Bytes, events: seq<Event>, tail: Bytes) {
    ValidChain(c, events) && NEWLINE !in tail && content == EncodeAll(c, events) + tail
  }

  /** What reading the lines after the events so far gives: all events, or the number of the line
      that is oversized, unreadable, out of sequence, wrongly chained or not canonical. */
  function ParseLines(c: Codec, lines: seq<Bytes>, events: seq<Event>): Result<seq<Event>, nat> {
    if lines == [] then Ok(events)
    else
      match NextEvent(c, lines[0], events)
      case None => Err(|events| + 1)
      case Some(e) => ParseLines(c, lines[1..], events + [e])
  }

  function NextEvent(c: Codec, line: Bytes, events: seq<Event>): (e: Option<Event>)
    ensures e.Some? ==> Follows(c, events, e.value) && c.encode(e.value) == line
  {
    if |line| + 1 > MAX_EVENT_BYTES then None
    else
      match c.parse(line)
      case None => None
      case Some(e) =>
        if e.sequence != |events| + 1 || e.previous != LastHash(c, events) then None
        else if c.encode(e) != line then None
        else Some(e)
  }

  function Parsed(c: Codec, content: Bytes): Result<(seq<Event>, Bytes), nat> {
    var lines := SplitLines(content);
    match ParseLines(c, lines[..|lines| - 1], [])
    case Err(n) => Err(n)
    case Ok(events) => Ok((events, lines[|lines| - 1]))
  }

  method ParseEvents(c: Codec, content: Bytes) returns (r: Result<(seq<Event>, Bytes), nat>)
    ensures r == Parsed(c, content)
  {
    var lines := SplitLines(content);
    var tail := lines[|lines| - 1];
    lines := lines[..|lines| - 1];
    var events: seq<Event>, previous: Option<Hash> := [], None;
    for i := 0 to |lines|
      invariant |events| == i && previous == LastHash(c, events)
      invariant ParseLines(c, lines, []) == ParseLines(c, lines[i..], events)
    {
      var line := lines[i];
      assert lines[i..][1..] == lines[i + 1..];
      if |line| + 1 > MAX_EVENT_BYTES {
        return Err(i + 1);
      }
      var parsed := c.parse(line);
      if parsed.None? {
        return Err(i + 1);
      }
      var event := parsed.value;
      if event.sequence != i + 1 || event.previous != previous {
        return Err(i + 1);
      }
      if c.encode(event) != line {
        return Err(i + 1);
      }
      events := events + [event];
      previous := Some(Sha256(line));
    }
    r := Ok((events, tail));
  }

  lemma {:induction false} ParseLinesSound(c: Codec, lines: seq<Bytes>, events: seq<Event>)
    requires ValidChain(c, events) && ParseLines(c, lines, events).Ok?
    ensures var all := ParseLines(c, lines, events).value;
            && ValidChain(c, all) && |all| == |events| + |lines| && all[..|events|] == events
            && forall i :: 0 <= i < |lines| ==> lines[i] == c.encode(all[|events| + i])
  {
    if lines != [] {
      var e := NextEvent(c, lines[0], events).value;
      ChainGrows(c, events, e);
      ParseLinesSound(c, lines[1..], events + [e]);
      var all := ParseLines(c, lines, events).value;
      assert all[..|events| + 1] == events + [e];
      assert all[..|events|] == all[..|events| + 1][..|events|];
      forall i | 0 <= i < |lines| ensures lines[i] == c.encode(all[|events| + i]) {
        if i > 0 {
          assert lines[i] == lines[1..][i - 1];
        } else {
          assert all[|events|] == all[..|events| + 1][|events|];
        }
      }
    }
  }

  lemma {:induction false} ParseLinesComplete(c: Codec, lines: seq<Bytes>, all: seq<Event>, done: nat)
    requires Lawful(c) && ValidChain(c, all) && |all| == done + |lines|
    requires forall i :: 0 <= i < |lines| ==> lines[i] == c.encode(all[done + i])
    ensures ParseLines(c, lines, all[..done]) == Ok(all)
    decreases |lines|
  {
    if lines == [] {
      assert all[..done] == all;
    } else {
      assert Follows(c, all[..done], all[done]) && lines[0] == c.encode(all[done]);
      assert all[..done] + [all[done]] == all[..done + 1];
      forall i | 0 <= i < |lines[1..]| ensures lines[1..][i] == c.encode(all[done + 1 + i]) {
        assert lines[1..][i] == lines[i + 1];
      }
      ParseLinesComplete(c, lines[1..], all, done + 1);
    }
  }

  ghost function Encodings(c: Codec, events: seq<Event>): seq<Bytes> {
    seq(|events|, i requires 0 <= i < |events| => c.encode(events[i]))
  }

  lemma {:induction false} JoinEncodings(c: Codec, events: seq<Event>, tail: Bytes)
    ensures JoinLines(Encodings(c, events) + [tail]) == EncodeAll(c, events) + tail
    ensures Lawful(c) && NEWLINE !in tail ==> SplitLines(EncodeAll(c, events) + tail) == Encodings(c, events) + [tail]
  {
    var lines := Encodings(c, events) + [tail];
    if events == [] {
      assert EncodeAll(c, events) + tail == tail;
      if NEWLINE !in tail {
        SplitLinesNone(tail);
      }
    } else {
      var rest := EncodeAll(c, events[1..]) + tail;
      JoinEncodings(c, events[1..], tail);
      assert lines[1..] == Encodings(c, events[1..]) + [tail];
      assert EncodeAll(c, events) + tail == c.encode(events[0]) + [NEWLINE] + rest;
      if Lawful(c) {
        SplitLinesFirst(c.encode(events[0]), rest);
        assert [c.encode(events[0])] + (Encodings(c, events[1..]) + [tail]) == lines;
      }
    }
  }

  /** The bytes of some events and a torn line determine both. */
  lemma EncodeAllInjective(c: Codec, a: seq<Event>, s: Bytes, b: seq<Event>, t: Bytes)
    requires Lawful(c) && NEWLINE !in s && NEWLINE !in t
    requires EncodeAll(c, a) + s == EncodeAll(c, b) + t
    ensures a == b && s == t
  {
    JoinEncodings(c, a, s);
    JoinEncodings(c, b, t);
    var x, y := Encodings(c, a) + [s], Encodings(c, b) + [t];
    assert x == y && |a| == |b| && x[|a|] == y[|a|];
    forall i | 0 <= i < |a| ensures a[i] == b[i] {
      assert x[i] == c.encode(a[i]) && y[i] == c.encode(b[i]);
      assert c.parse(c.encode(a[i])) == Some(a[i]) && c.parse(c.encode(b[i])) == Some(b[i]);
    }
  }

  /** Reading accepts exactly the contents that are a valid chain and a torn line, and returns them. */
  lemma ParsedExactly(c: Codec, content: Bytes, events: seq<Event>, tail: Bytes)
    requires Lawful(c)
    ensures Parsed(c, content) == Ok((events, tail)) <==> Recorded(c, content, events, tail)
  {
    var lines := SplitLines(content);
    var front := lines[..|lines| - 1];
    if Parsed(c, content) == Ok((events, tail)) {
      ParseLinesSound(c, front, []);
      SplitLinesJoin(content);
      assert front == Encodings(c, events);
      assert lines == Encodings(c, events) + [tail];
      JoinEncodings(c, events, tail);
    }
    if Recorded(c, content, events, tail) {
      JoinEncodings(c, events, tail);
      assert front == Encodings(c, events);
      assert events[..0] == [];
      ParseLinesComplete(c, front, events, 0);
    }
  }

  /** A content has at most one reading. */
  lemma RecordedUnique(c: Codec, content: Bytes, a: seq<Event>, s: Bytes, b: seq<Event>, t: Bytes)
    requires Lawful(c) && Recorded(c, content, a, s) && Recorded(c, content, b, t)
    ensures a == b && s == t
  {
    ParsedExactly(c, content, a, s);
    ParsedExactly(c, content, b, t);
  }

  /** Two valid chains whose n-th lines have the same digest are the same up to there. */
  lemma {:induction false} HashPinsPrefix(c: Codec, a: seq<Event>, b: seq<Event>, n: nat)
    requires Lawful(c) && ValidChain(c, a) && ValidChain(c, b) && n <= |a| && n <= |b|
    requires LastHash(c, a[..n]) == LastHash(c, b[..n])
    ensures a[..n] == b[..n]
  {
    if n > 0 {
      LastOf(c, a, n);
      LastOf(c, b, n);
      SameLine(c, a[n - 1], b[n - 1]);
      HashPinsPrefix(c, a, b, n - 1);
    }
  }

  lemma LastOf(c: Codec, a: seq<Event>, n: nat)
    requires ValidChain(c, a) && 0 < n <= |a|
    ensures a[..n] == a[..n - 1] + [a[n - 1]] && LastHash(c, a[..n]) == Some(Sha256(c.encode(a[n - 1])))
    ensures a[n - 1].previous == LastHash(c, a[..n - 1])
  {
    assert Follows(c, a[..n - 1], a[n - 1]);
  }

  lemma SameLine(c: Codec, x: Event, y: Event)
    requires Lawful(c) && Sha256(c.encode(x)) == Sha256(c.encode(y))
    ensures x == y
  {
    assert c.parse(c.encode(x)) == Some(x) && c.parse(c.encode(y)) == Some(y);
  }

  /** Any first part of a recorded content is recorded too: the longest run of whole lines that fits
      in it, and a torn line. */
  lemma {:induction false} TakeRecorded(c: Codec, events: seq<Event>, tail: Bytes, size: nat)
    returns (n: nat, piece: Bytes)
    requires Lawful(c) && NEWLINE !in tail && size <= |EncodeAll(c, events) + tail|
    ensures n <= |events| && NEWLINE !in piece
    ensures (EncodeAll(c, events) + tail)[..size] == EncodeAll(c, events[..n]) + piece
    ensures n < |events| ==> size < |EncodeAll(c, events[..n + 1])|
  {
    var content := EncodeAll(c, events) + tail;
    if events == [] {
      n, piece := 0, content[..size];
      assert content == tail;
      assert content[..size] == [] + piece;
    } else {
      var line := c.encode(events[0]) + [NEWLINE];
      assert content == line + (EncodeAll(c, events[1..]) + tail);
      if size < |line| {
        n, piece := 0, content[..size];
        assert piece == c.encode(events[0])[..size];
        assert events[..1] == [events[0]] && EncodeAll(c, [events[0]]) == line;
        assert content[..size] == EncodeAll(c, events[..0]) + piece;
      } else {
        var m, q := TakeRecorded(c, events[1..], tail, size - |line|);
        n, piece := m + 1, q;
        assert content[..size] == line + (EncodeAll(c, events[1..]) + tail)[..size - |line|];
        assert events[..n][1..] == events[1..][..m];
        assert EncodeAll(c, events[..n]) == line + EncodeAll(c, events[1..][..m]);
        if n < |events| {
          assert events[..n + 1][1..] == events[1..][..m + 1];
          assert EncodeAll(c, events[..n + 1]) == line + EncodeAll(c, events[1..][..m + 1]);
        }
      }
    }
  }
}
