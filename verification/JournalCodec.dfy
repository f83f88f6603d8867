/**
 A lawful codec exists: the journal's theorems, which hold for every lawful codec, are not about
 nothing. The encoding here writes each field of an event as a self-delimiting list of numbers.
*/
module JournalCodec {
  import opened Options
  import opened Journals

  function Number(n: nat): Bytes {
    if n == 0 then [0] else [1] + Number(n - 1)
  }

  function Numbers(s: seq<nat>): Bytes {
    if s == [] then [0] else [1] + (Number(s[0]) + Numbers(s[1..]))
  }

  lemma {:induction false} NumberUnique(a: nat, b: nat, x: Bytes, y: Bytes)
    requires Number(a) + x == Number(b) + y
    ensures a == b && x == y
  {
    var u, v := Number(a) + x, Number(b) + y;
    assert (a == 0 ==> u[0] == 0 && u[1..] == x) && (b == 0 ==> v[0] == 0 && v[1..] == y);
    assert (a > 0 ==> u[0] == 1) && (b > 0 ==> v[0] == 1);
    if a > 0 {
      assert u[1..] == Number(a - 1) + x && v[1..] == Number(b - 1) + y;
      NumberUnique(a - 1, b - 1, x, y);
    }
  }

  lemma {:induction false} NumbersUnique(a: seq<nat>, b: seq<nat>, x: Bytes, y: Bytes)
    requires Numbers(a) + x == Numbers(b) + y
    ensures a == b && x == y
    decreases |a|
  {
    var u, v := Numbers(a) + x, Numbers(b) + y;
    assert (a == [] ==> u[0] == 0 && u[1..] == x) && (b == [] ==> v[0] == 0 && v[1..] == y);
    assert (a != [] ==> u[0] == 1) && (b != [] ==> v[0] == 1);
    if a != [] {
      assert u[1..] == Number(a[0]) + (Numbers(a[1..]) + x) && v[1..] == Number(b[0]) + (Numbers(b[1..]) + y);
      NumberUnique(a[0], b[0], Numbers(a[1..]) + x, Numbers(b[1..]) + y);
      NumbersUnique(a[1..], b[1..], x, y);
      assert a == [a[0]] + a[1..] && b == [b[0]] + b[1..];
    }
  }

  lemma {:induction false} NumberHasNoNewline(n: nat)
    ensures NEWLINE !in Number(n)
  {
    if n > 0 {
      NumberHasNoNewline(n - 1);
    }
  }

  lemma {:induction false} NumbersHaveNoNewline(s: seq<nat>)
    ensures NEWLINE !in Numbers(s)
  {
    if s != [] {
      NumberHasNoNewline(s[0]);
      NumbersHaveNoNewline(s[1..]);
    }
  }

  function OfInt(i: int): seq<nat> {
    if i < 0 then [1, -i] else [0, i]
  }

  function OfText(s: string): (r: seq<nat>)
    ensures |r| == |s| && forall i :: 0 <= i < |s| ==> r[i] == s[i] as nat
  {
    seq(|s|, i requires 0 <= i < |s| => s[i] as nat)
  }

  function OfBytes(s: Bytes): (r: seq<nat>)
    ensures |r| == |s| && forall i :: 0 <= i < |s| ==> r[i] == s[i] as nat
  {
    seq(|s|, i requires 0 <= i < |s| => s[i] as nat)
  }

  function OfOptional(o: Option<string>): seq<nat> {
    match o
    case None => []
    case Some(s) => [1] + OfText(s)
  }

  function OfHash(o: Option<Hash>): seq<nat> {
    match o
    case None => []
    case Some(h) => [1] + OfBytes(h.preimage)
  }

  lemma TextUnique(a: string, b: string)
    requires OfText(a) == OfText(b)
    ensures a == b
  {
    forall i | 0 <= i < |a| ensures a[i] == b[i] {
      assert OfText(a)[i] == OfText(b)[i];
    }
  }

  lemma OptionalUnique(a: Option<string>, b: Option<string>)
    requires OfOptional(a) == OfOptional(b)
    ensures a == b
  {
    if a.Some? && b.Some? {
      assert OfText(a.value) == OfOptional(a)[1..] && OfText(b.value) == OfOptional(b)[1..];
      TextUnique(a.value, b.value);
    }
  }

  lemma HashUnique(a: Option<Hash>, b: Option<Hash>)
    requires OfHash(a) == OfHash(b)
    ensures a == b
  {
    if a.Some? && b.Some? {
      var x, y := a.value.preimage, b.value.preimage;
      assert OfBytes(x) == OfHash(a)[1..] && OfBytes(y) == OfHash(b)[1..];
      forall i | 0 <= i < |x| ensures x[i] == y[i] {
        assert OfBytes(x)[i] == OfBytes(y)[i];
      }
      assert x == y && a.value == Sha256(x) && b.value == Sha256(y);
    }
  }

  function Fields(e: Event): seq<seq<nat>> {
    [OfInt(e.sequence), OfHash(e.previous), OfInt(e.body.timestamp), OfText(e.body.name),
     OfOptional(e.body.trial), OfOptional(e.body.attempt), OfText(e.body.data)]
  }

  lemma FieldsUnique(a: Event, b: Event)
    requires Fields(a) == Fields(b)
    ensures a == b
  {
    var x, y := Fields(a), Fields(b);
    assert x[0] == y[0] && x[1] == y[1] && x[2] == y[2] && x[3] == y[3] && x[4] == y[4] && x[5] == y[5] && x[6] == y[6];
    IntUnique(a.sequence, b.sequence);
    IntUnique(a.body.timestamp, b.body.timestamp);
    HashUnique(a.previous, b.previous);
    TextUnique(a.body.name, b.body.name);
    TextUnique(a.body.data, b.body.data);
    OptionalUnique(a.body.trial, b.body.trial);
    OptionalUnique(a.body.attempt, b.body.attempt);
  }

  lemma IntUnique(a: int, b: int)
    requires OfInt(a) == OfInt(b)
    ensures a == b
  {
    assert OfInt(a)[0] == OfInt(b)[0] && OfInt(a)[1] == OfInt(b)[1];
  }

  function Encode(fields: seq<seq<nat>>): Bytes {
    if fields == [] then [] else Numbers(fields[0]) + Encode(fields[1..])
  }

  lemma {:induction false} EncodeUnique(a: seq<seq<nat>>, b: seq<seq<nat>>)
    requires |a| == |b| && Encode(a) == Encode(b)
    ensures a == b
  {
    if a != [] {
      NumbersUnique(a[0], b[0], Encode(a[1..]), Encode(b[1..]));
      EncodeUnique(a[1..], b[1..]);
      assert a == [a[0]] + a[1..] && b == [b[0]] + b[1..];
    }
  }

  lemma {:induction false} EncodeHasNoNewline(fields: seq<seq<nat>>)
    ensures NEWLINE !in Encode(fields)
  {
    if fields != [] {
      NumbersHaveNoNewline(fields[0]);
      EncodeHasNoNewline(fields[1..]);
    }
  }

  ghost function Parse(line: Bytes): Option<Event> {
    if e: Event :| Encode(Fields(e)) == line then Some(e) else None
  }

  lemma LawfulCodecExists() returns (c: Codec)
    ensures Lawful(c)
  {
    c := Codec(e => Encode(Fields(e)), line => Parse(line));
    forall e: Event ensures c.parse(c.encode(e)) == Some(e) && NEWLINE !in c.encode(e) {
      EncodeHasNoNewline(Fields(e));
      var line := Encode(Fields(e));
      assert Encode(Fields(e)) == line;
      var f := Parse(line).value;
      EncodeUnique(Fields(e), Fields(f));
      FieldsUnique(e, f);
    }
  }
}
