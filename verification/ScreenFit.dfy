/**
 Fitting a terminal screen into the stand-in's input limit: the longest run of last lines that fits.
*/
module ScreenFit {

  /** What counts as white space, how many bytes each character is encoded in, and how many the rest
      of the request is. */
  datatype Encoding = Encoding(space: char -> bool, weight: char -> nat, frame: nat)

  function TrimLeft(e: Encoding, s: string): string {
    if s != "" && e.space(s[0]) then TrimLeft(e, s[1..]) else s
  }

  function TrimRight(e: Encoding, s: string): string {
    if s != "" && e.space(s[|s| - 1]) then TrimRight(e, s[..|s| - 1]) else s
  }

  function Trim(e: Encoding, s: string): string {
    TrimLeft(e, TrimRight(e, s))
  }

  function JoinLines(lines: seq<string>): string {
    if lines == [] then ""
    else if |lines| == 1 then lines[0]
    else lines[0] + "\n" + JoinLines(lines[1..])
  }

  /** The screen of the last `count` lines; of fewer lines, all of them. */
  function Kept(e: Encoding, lines: seq<string>, count: nat): string {
    Trim(e, JoinLines(lines[if count <= |lines| then |lines| - count else 0..]))
  }

  function Weight(e: Encoding, s: string): nat {
    if s == "" then 0 else e.weight(s[0]) + Weight(e, s[1..])
  }

  function Size(e: Encoding, screen: string): nat {
    e.frame + Weight(e, screen)
  }

  function SizeAt(e: Encoding, lines: seq<string>, count: nat): nat {
    Size(e, Kept(e, lines, count))
  }

  /** `count` last lines fit, and no more do. */
  ghost predicate LongestFit(e: Encoding, lines: seq<string>, limit: nat, count: nat) {
    && 1 <= count < |lines| && SizeAt(e, lines, count) <= limit
    && forall more :: count < more <= |lines| ==> SizeAt(e, lines, more) > limit
  }

  ghost predicate IsSuffix(s: string, t: string) {
    |s| <= |t| && t[|t| - |s|..] == s
  }

  ghost predicate Blank(e: Encoding, s: string) {
    forall i :: 0 <= i < |s| ==> e.space(s[i])
  }

  /** Trimming takes white space from both ends, all of it, and nothing else. */
  lemma TrimIsExact(e: Encoding, s: string) returns (before: string, after: string)
    ensures s == before + Trim(e, s) + after && Blank(e, before) && Blank(e, after)
    ensures var t := Trim(e, s); t == "" || (!e.space(t[0]) && !e.space(t[|t| - 1]))
  {
    after := TrimRightIsExact(e, s);
    before := TrimLeftIsExact(e, TrimRight(e, s));
    var t := Trim(e, s);
    assert t != "" ==> t[|t| - 1] == (before + t)[|before + t| - 1];
  }

  lemma {:induction false} TrimRightIsExact(e: Encoding, s: string) returns (after: string)
    ensures s == TrimRight(e, s) + after && Blank(e, after)
    ensures var t := TrimRight(e, s); t == "" || !e.space(t[|t| - 1])
  {
    after := "";
    if s != "" && e.space(s[|s| - 1]) {
      after := TrimRightIsExact(e, s[..|s| - 1]);
      after := after + [s[|s| - 1]];
      assert s == s[..|s| - 1] + [s[|s| - 1]];
    }
  }

  lemma {:induction false} TrimLeftIsExact(e: Encoding, s: string) returns (before: string)
    ensures s == before + TrimLeft(e, s) && Blank(e, before)
    ensures var t := TrimLeft(e, s); t == "" || !e.space(t[0])
  {
    before := "";
    if s != "" && e.space(s[0]) {
      before := TrimLeftIsExact(e, s[1..]);
      before := [s[0]] + before;
      assert s == [s[0]] + s[1..];
    }
  }

  /** What is kept is the last lines, with a line break between any two of them, and trimmed. */
  lemma {:induction false} KeptIsTheLast(e: Encoding, first: seq<string>, last: seq<string>)
    ensures Kept(e, first + last, |last|) == Trim(e, JoinLines(last))
    ensures forall line :: JoinLines([line]) == line
    ensures first != [] && last != [] ==> JoinLines(first + last) == JoinLines(first) + "\n" + JoinLines(last)
  {
    assert (first + last)[|first|..] == last;
    JoinApart(first, last);
  }

  lemma {:induction false} JoinApart(first: seq<string>, last: seq<string>)
    ensures first != [] && last != [] ==> JoinLines(first + last) == JoinLines(first) + "\n" + JoinLines(last)
  {
    if |first| == 1 {
      assert (first + last)[1..] == last;
    } else if first != [] && last != [] {
      JoinApart(first[1..], last);
      assert (first + last)[1..] == first[1..] + last;
      Associative(first[0], JoinLines(first[1..]), JoinLines(last));
    }
  }

  lemma Associative(x: string, y: string, z: string)
    ensures x + "\n" + (y + "\n" + z) == x + "\n" + y + "\n" + z
  {
  }

  lemma {:induction false} TrimLeftSuffix(e: Encoding, x: string, z: string)
    ensures IsSuffix(TrimLeft(e, z), z)
    ensures IsSuffix(TrimLeft(e, z), TrimLeft(e, x + z))
    decreases |x| + |z|
  {
    if x == "" {
      assert x + z == z;
      if z != "" && e.space(z[0]) {
        TrimLeftSuffix(e, "", z[1..]);
        assert "" + z[1..] == z[1..];
        var t := TrimLeft(e, z);
        assert z[|z| - |t|..] == z[1..][|z| - 1 - |t|..];
      }
    } else {
      TrimLeftSuffix(e, x[1..], z);
      assert (x + z)[1..] == x[1..] + z;
      var t := TrimLeft(e, z);
      if !e.space(x[0]) {
        assert (x + z)[|x + z| - |t|..] == z[|z| - |t|..];
      }
    }
  }

  lemma {:induction false} TrimRightAppend(e: Encoding, x: string, y: string)
    ensures TrimRight(e, y) != "" ==> TrimRight(e, x + y) == x + TrimRight(e, y)
  {
    if y != "" {
      assert (x + y)[|x + y| - 1] == y[|y| - 1];
      if e.space(y[|y| - 1]) {
        assert (x + y)[..|x + y| - 1] == x + y[..|y| - 1];
        TrimRightAppend(e, x, y[..|y| - 1]);
      }
    }
  }

  /** Text put in front of a screen never takes anything away from it once both are trimmed. */
  lemma TrimSuffix(e: Encoding, x: string, y: string)
    ensures IsSuffix(Trim(e, y), Trim(e, x + y))
  {
    if TrimRight(e, y) == "" {
      var t := Trim(e, x + y);
      assert t[|t|..] == "";
    } else {
      TrimRightAppend(e, x, y);
      TrimLeftSuffix(e, x, TrimRight(e, y));
    }
  }

  lemma {:induction false} WeightAppend(e: Encoding, x: string, y: string)
    ensures Weight(e, x + y) == Weight(e, x) + Weight(e, y) && forall c :: Weight(e, [c]) == e.weight(c)
  {
    forall c ensures Weight(e, [c]) == e.weight(c) + Weight(e, "") { assert [c][1..] == ""; }
    if x == "" {
      assert x + y == y;
    } else {
      WeightAppend(e, x[1..], y);
      assert (x + y)[1..] == x[1..] + y;
    }
  }

  /** What is kept of fewer lines ends what is kept of more lines, and so is no longer encoded. */
  lemma {:induction false} KeptIsNested(e: Encoding, lines: seq<string>, fewer: nat, more: nat)
    requires fewer <= more <= |lines|
    ensures SizeAt(e, lines, fewer) <= SizeAt(e, lines, more)
    decreases more - fewer
  {
    if fewer < more {
      KeptIsNested(e, lines, fewer, more - 1);
      KeptOneMore(e, lines, more - 1);
      var s, t := Kept(e, lines, more - 1), Kept(e, lines, more);
      WeightAppend(e, t[..|t| - |s|], s);
      assert t == t[..|t| - |s|] + s;
    }
  }

  lemma KeptOneMore(e: Encoding, lines: seq<string>, count: nat)
    requires count < |lines|
    ensures IsSuffix(Kept(e, lines, count), Kept(e, lines, count + 1))
  {
    var first, rest := lines[|lines| - count - 1], lines[|lines| - count..];
    assert lines[|lines| - (count + 1)..] == [first] + rest;
    if rest == [] {
      assert JoinLines([first] + rest) == first + JoinLines(rest);
      TrimSuffix(e, first, JoinLines(rest));
    } else {
      assert ([first] + rest)[1..] == rest;
      assert JoinLines([first] + rest) == first + "\n" + JoinLines(rest);
      TrimSuffix(e, first + "\n", JoinLines(rest));
    }
  }

  /** All lines if they fit; otherwise the most last lines, at least one and not all, that fit; and
      the last line alone if none do. */
  method ScreenProjection(e: Encoding, screen: seq<string>, limit: nat) returns (fitted: string)
    ensures var lines := Trimmed(e, screen);
            if SizeAt(e, lines, |lines|) <= limit then fitted == Kept(e, lines, |lines|)
            else if |lines| > 1 && SizeAt(e, lines, 1) <= limit then
              exists count :: LongestFit(e, lines, limit, count) && fitted == Kept(e, lines, count)
            else fitted == Kept(e, lines, 1)
  {
    var lines := Trimmed(e, screen);
    fitted := Kept(e, lines, |lines|);
    if Size(e, fitted) > limit {
      fitted := SearchSuffix(e, lines, limit);
    }
  }

  /** The lines of the screen without the white space they end in. */
  function Trimmed(e: Encoding, screen: seq<string>): (lines: seq<string>)
    ensures |lines| == |screen| && forall i :: 0 <= i < |screen| ==> lines[i] == TrimRight(e, screen[i])
  {
    seq(|screen|, i requires 0 <= i < |screen| => TrimRight(e, screen[i]))
  }

  method SearchSuffix(e: Encoding, lines: seq<string>, limit: nat) returns (fitted: string)
    requires SizeAt(e, lines, |lines|) > limit
    ensures if |lines| > 1 && SizeAt(e, lines, 1) <= limit then
              exists count :: LongestFit(e, lines, limit, count) && fitted == Kept(e, lines, count)
            else fitted == Kept(e, lines, 1)
  {
    var low, high := 1, |lines| - 1;
    fitted := Kept(e, lines, 1);
    while low <= high
      invariant 1 <= low && high <= |lines| - 1 && (low <= high + 1 || |lines| == 0)
      invariant if low == 1 then fitted == Kept(e, lines, 1)
                else fitted == Kept(e, lines, low - 1) && SizeAt(e, lines, low - 1) <= limit
      invariant TooLarge(e, lines, limit, high)
      decreases high - low + 1
    {
      var middle := (low + high) / 2;
      var candidate := Kept(e, lines, middle);
      if Size(e, candidate) <= limit {
        fitted, low := candidate, middle + 1;
      } else {
        TooLargeFrom(e, lines, limit, middle);
        high := middle - 1;
      }
    }
    if low > 1 {
      KeptIsNested(e, lines, 1, low - 1);
      assert LongestFit(e, lines, limit, low - 1);
    }
  }

  /** No count above `high` fits. */
  ghost predicate TooLarge(e: Encoding, lines: seq<string>, limit: nat, high: int) {
    forall more :: 1 <= more && high < more <= |lines| ==> SizeAt(e, lines, more) > limit
  }

  lemma TooLargeFrom(e: Encoding, lines: seq<string>, limit: nat, count: nat)
    requires 1 <= count <= |lines| && SizeAt(e, lines, count) > limit
    ensures TooLarge(e, lines, limit, count - 1)
  {
    forall more | 1 <= more && count - 1 < more <= |lines| ensures SizeAt(e, lines, more) > limit {
      KeptIsNested(e, lines, count, more);
    }
  }
}
