/** String primitives that the manifest parser is built from, each with the
    behaviour of the Rust standard-library method or nom combinator it stands
    for. Strings are sequences of characters; every split the parser makes is
    at an ASCII character, so working on characters instead of UTF-8 bytes
    loses nothing. */
module Text {

  /** nom's `is_hex_digit`: the characters 0-9, a-f and A-F. */
  predicate IsHexDigit(c: char) {
    ('0' <= c <= '9') || ('a' <= c <= 'f') || ('A' <= c <= 'F')
  }

  predicate AllHex(s: string) {
    forall i :: 0 <= i < |s| ==> IsHexDigit(s[i])
  }

  /** `s.chars().rev().collect()` */
  function Reverse(s: string): string {
    if s == [] then [] else Reverse(s[1..]) + [s[0]]
  }

  /** The i-th character of the reversal is the i-th from the end. */
  lemma {:induction false} ReverseSpec(s: string)
    ensures |Reverse(s)| == |s|
    ensures forall i :: 0 <= i < |s| ==> Reverse(s)[i] == s[|s| - 1 - i]
  {
    if s != [] {
      ReverseSpec(s[1..]);
    }
  }

  lemma ReverseReverse(s: string)
    ensures Reverse(Reverse(s)) == s
  {
    ReverseSpec(s);
    ReverseSpec(Reverse(s));
    var r := Reverse(Reverse(s));
    assert forall i :: 0 <= i < |s| ==> r[i] == s[i];
  }

  lemma ReverseAppend(a: string, b: string)
    ensures Reverse(a + b) == Reverse(b) + Reverse(a)
  {
    ReverseSpec(a + b);
    ReverseSpec(a);
    ReverseSpec(b);
    var l, r := Reverse(a + b), Reverse(b) + Reverse(a);
    assert forall i :: 0 <= i < |l| ==> l[i] == r[i];
  }

  lemma ReverseContains(s: string, c: char)
    ensures c in Reverse(s) <==> c in s
  {
    ReverseSpec(s);
    var r := Reverse(s);
    if c in s {
      var i :| 0 <= i < |s| && s[i] == c;
      assert r[|s| - 1 - i] == c;
    }
    if c in r {
      var i :| 0 <= i < |r| && r[i] == c;
      assert s[|s| - 1 - i] == c;
    }
  }

  /** Slicing a suffix of `s` is slicing `s` itself. */
  lemma SuffixSlices(s: string, t: nat, e: nat)
    requires t <= e <= |s|
    ensures s[t..][..e - t] == s[t..e] && s[t..][e - t..] == s[e..]
  {
  }

  /** A character is absent from a slice exactly when no position in its
      range holds it. */
  lemma NotInSlice(s: string, c: char, i: nat, j: nat)
    requires i <= j <= |s|
    ensures c !in s[i..j] <==> forall k :: i <= k < j ==> s[k] != c
  {
    if c in s[i..j] {
      var k :| 0 <= k < j - i && s[i..j][k] == c;
      assert s[i + k] == c;
    }
  }

  /** Index of the first occurrence of `c` in `s`. */
  function IndexOf(s: string, c: char): (i: nat)
    requires c in s
    ensures i < |s| && s[i] == c
  {
    if s[0] == c then 0
    else
      assert c in s[1..] by {
        var k :| 0 <= k < |s| && s[k] == c;
        assert s[1..][k - 1] == c;
      }
      1 + IndexOf(s[1..], c)
  }

  /** No earlier occurrence: `IndexOf` finds the first one. */
  lemma {:induction false} IndexOfFirst(s: string, c: char)
    requires c in s
    ensures c !in s[..IndexOf(s, c)]
  {
    if s[0] != c {
      assert c in s[1..] by {
        var k :| 0 <= k < |s| && s[k] == c;
        assert s[1..][k - 1] == c;
      }
      IndexOfFirst(s[1..], c);
      var i := IndexOf(s, c);
      assert s[..i] == [s[0]] + s[1..][..i - 1];
    }
  }

  lemma IndexOfUnique(s: string, c: char, i: nat)
    requires i < |s| && s[i] == c && c !in s[..i]
    ensures IndexOf(s, c) == i
  {
    var k := IndexOf(s, c);
    IndexOfFirst(s, c);
  }

  /** Index of the last occurrence of `c` in `s`. */
  function LastIndexOf(s: string, c: char): (i: nat)
    requires c in s
    ensures i < |s| && s[i] == c
  {
    if s[|s| - 1] == c then |s| - 1
    else
      assert c in s[..|s| - 1] by {
        var k :| 0 <= k < |s| && s[k] == c;
        assert s[..|s| - 1][k] == c;
      }
      LastIndexOf(s[..|s| - 1], c)
  }

  /** No later occurrence: `LastIndexOf` finds the last one. */
  lemma {:induction false} LastIndexOfLast(s: string, c: char)
    requires c in s
    ensures c !in s[LastIndexOf(s, c) + 1..]
  {
    if s[|s| - 1] != c {
      assert c in s[..|s| - 1] by {
        var k :| 0 <= k < |s| && s[k] == c;
        assert s[..|s| - 1][k] == c;
      }
      LastIndexOfLast(s[..|s| - 1], c);
      var i := LastIndexOf(s, c);
      assert s[i + 1..] == s[..|s| - 1][i + 1..] + [s[|s| - 1]];
    }
  }

  lemma LastIndexOfUnique(s: string, c: char, i: nat)
    requires i < |s| && s[i] == c && c !in s[i + 1..]
    ensures LastIndexOf(s, c) == i
  {
    var k := LastIndexOf(s, c);
    LastIndexOfLast(s, c);
  }

  /** What nom's `take_until(delim)` returns: on success, the input left
      unconsumed (which starts at the delimiter) and the text taken before it;
      when the delimiter does not occur, an error. */
  datatype Split = NotFound | Found(remaining: string, taken: string)

  /** nom's `bytes::complete::take_until` with a one-character delimiter. */
  function TakeUntil(s: string, delim: char): Split {
    if delim in s then
      var i := IndexOf(s, delim);
      Found(s[i..], s[..i])
    else NotFound
  }

  /** `take_until` fails exactly when the delimiter is absent; otherwise it
      splits the input in front of the first delimiter. */
  lemma TakeUntilSpec(s: string, delim: char)
    ensures TakeUntil(s, delim).NotFound? <==> delim !in s
    ensures TakeUntil(s, delim).Found? ==>
      var r := TakeUntil(s, delim);
      r.taken + r.remaining == s && delim !in r.taken && |r.remaining| > 0 && r.remaining[0] == delim
  {
    if delim in s {
      var i := IndexOf(s, delim);
      IndexOfFirst(s, delim);
      assert s[..i] + s[i..] == s;
    }
  }

  /** The success of `take_until` is determined by the input: the taken part is
      the text before the first delimiter. */
  lemma TakeUntilUnique(s: string, delim: char, remaining: string, taken: string)
    requires taken + remaining == s && delim !in taken
    requires |remaining| > 0 && remaining[0] == delim
    ensures TakeUntil(s, delim) == Found(remaining, taken)
  {
    assert s[|taken|] == delim;
    assert s[..|taken|] == taken;
    IndexOfUnique(s, delim, |taken|);
  }

  /** nom's `bytes::complete::take_while(is_hex_digit)`: the pair (input left,
      leading run of hex digits). It never fails. */
  function TakeWhileHex(s: string): (string, string) {
    if s != [] && IsHexDigit(s[0]) then
      var t := TakeWhileHex(s[1..]);
      (t.0, [s[0]] + t.1)
    else (s, [])
  }

  /** The run taken is a prefix of the input made of hex digits, and it is
      maximal: what is left does not start with a hex digit. */
  lemma {:induction false} TakeWhileHexSpec(s: string)
    ensures var r := TakeWhileHex(s);
      r.1 + r.0 == s && AllHex(r.1) && (r.0 == [] || !IsHexDigit(r.0[0]))
  {
    if s != [] && IsHexDigit(s[0]) {
      TakeWhileHexSpec(s[1..]);
      var t := TakeWhileHex(s[1..]);
      assert [s[0]] + t.1 + t.0 == [s[0]] + (t.1 + t.0);
    }
  }

  lemma TakeWhileHexUnique(s: string, rest: string, run: string)
    requires run + rest == s && AllHex(run)
    requires rest == [] || !IsHexDigit(rest[0])
    ensures TakeWhileHex(s) == (rest, run)
  {
    if run != [] {
      assert s[1..] == run[1..] + rest;
      TakeWhileHexUnique(s[1..], rest, run[1..]);
      assert s[0] == run[0] && IsHexDigit(s[0]);
      assert [s[0]] + run[1..] == run;
    } else {
      assert rest == s;
    }
  }

  /** `str::trim_start_matches(c)`: removes every leading occurrence of `c`. */
  function TrimStartMatches(s: string, c: char): string {
    if s != [] && s[0] == c then TrimStartMatches(s[1..], c) else s
  }

  /** The result is a suffix of the input, everything removed is `c`, and the
      result does not start with `c`. */
  lemma {:induction false} TrimStartMatchesSpec(s: string, c: char)
    ensures var r := TrimStartMatches(s, c);
      |r| <= |s| && r == s[|s| - |r|..] &&
      (forall i :: 0 <= i < |s| - |r| ==> s[i] == c) &&
      (r == [] || r[0] != c)
  {
    if s != [] && s[0] == c {
      TrimStartMatchesSpec(s[1..], c);
      var r := TrimStartMatches(s, c);
      assert forall i :: 1 <= i < |s| - |r| ==> s[i] == s[1..][i - 1];
    }
  }

  lemma TrimStartMatchesUnique(s: string, c: char, r: string)
    requires |r| <= |s| && r == s[|s| - |r|..]
    requires forall i :: 0 <= i < |s| - |r| ==> s[i] == c
    requires r == [] || r[0] != c
    ensures TrimStartMatches(s, c) == r
  {
    TrimStartMatchesSpec(s, c);
    var t := TrimStartMatches(s, c);
  }

  /** `str::trim_end_matches(c)`: removes every trailing occurrence of `c`. */
  function TrimEndMatches(s: string, c: char): string {
    if s != [] && s[|s| - 1] == c then TrimEndMatches(s[..|s| - 1], c) else s
  }

  /** The result is a prefix of the input, everything removed is `c`, and the
      result does not end with `c`. */
  lemma {:induction false} TrimEndMatchesSpec(s: string, c: char)
    ensures var r := TrimEndMatches(s, c);
      |r| <= |s| && r == s[..|r|] &&
      (forall i :: |r| <= i < |s| ==> s[i] == c) &&
      (r == [] || r[|r| - 1] != c)
  {
    if s != [] && s[|s| - 1] == c {
      TrimEndMatchesSpec(s[..|s| - 1], c);
    }
  }

  /** Trimming the front of a reversed string is trimming the back of the
      string itself. */
  lemma TrimStartOfReverse(s: string, c: char)
    ensures TrimStartMatches(Reverse(s), c) == Reverse(TrimEndMatches(s, c))
  {
    var t := TrimEndMatches(s, c);
    TrimEndMatchesSpec(s, c);
    ReverseSpec(s);
    ReverseSpec(t);
    var rs, rt := Reverse(s), Reverse(t);
    forall i | 0 <= i < |rt|
      ensures rt[i] == rs[|rs| - |rt|..][i]
    {
      assert rt[i] == t[|t| - 1 - i] == s[|t| - 1 - i];
    }
    forall i | 0 <= i < |rs| - |rt|
      ensures rs[i] == c
    {
      assert rs[i] == s[|s| - 1 - i];
    }
    assert rt == rs[|rs| - |rt|..];
    TrimStartMatchesUnique(rs, c, rt);
  }

  /** Start of the maximal trailing run of hex digits of `s`. */
  function ChecksumStart(s: string): (e: nat)
    ensures e <= |s|
  {
    if s != [] && IsHexDigit(s[|s| - 1]) then ChecksumStart(s[..|s| - 1]) else |s|
  }

  /** Everything from the checksum start on is a hex digit and the character
      before it is not. */
  lemma {:induction false} ChecksumStartSpec(s: string)
    ensures AllHex(s[ChecksumStart(s)..])
    ensures ChecksumStart(s) > 0 ==> !IsHexDigit(s[ChecksumStart(s) - 1])
  {
    if s != [] && IsHexDigit(s[|s| - 1]) {
      var front := s[..|s| - 1];
      ChecksumStartSpec(front);
      var e := ChecksumStart(front);
      assert s[e..] == front[e..] + [s[|s| - 1]];
    }
  }

  /** Every character that is not a hex digit stands before the trailing
      hex run. */
  lemma ChecksumStartBound(s: string, i: nat)
    requires i < |s| && !IsHexDigit(s[i])
    ensures i < ChecksumStart(s)
  {
    var e := ChecksumStart(s);
    ChecksumStartSpec(s);
  }

  lemma ChecksumStartUnique(s: string, e: nat)
    requires e <= |s| && AllHex(s[e..])
    requires e > 0 ==> !IsHexDigit(s[e - 1])
    ensures ChecksumStart(s) == e
  {
    var k := ChecksumStart(s);
    ChecksumStartSpec(s);
  }

  /** Dropping a prefix that ends before the trailing hex run moves the
      start of that run by the length dropped. */
  lemma {:induction false} ChecksumStartOfSuffix(s: string, t: nat)
    requires t <= ChecksumStart(s)
    ensures ChecksumStart(s[t..]) == ChecksumStart(s) - t
    decreases |s|
  {
    if s != [] && IsHexDigit(s[|s| - 1]) {
      var front := s[..|s| - 1];
      ChecksumStartOfSuffix(front, t);
      assert s[t..][..|s| - 1 - t] == front[t..];
    }
  }

  /** The leading hex run of a reversed string is the reversed trailing hex
      run of the string. */
  lemma ReverseTakeWhileHex(s: string)
    ensures TakeWhileHex(Reverse(s)) == (Reverse(s[..ChecksumStart(s)]), Reverse(s[ChecksumStart(s)..]))
  {
    var k := ChecksumStart(s);
    ChecksumStartSpec(s);
    var front, back := s[..k], s[k..];
    assert s == front + back;
    ReverseAppend(front, back);
    ReverseSpec(front);
    ReverseSpec(back);
    assert front != [] ==> Reverse(front)[0] == s[k - 1];
    TakeWhileHexUnique(Reverse(s), Reverse(front), Reverse(back));
  }

  /** `take_until(c)` on a reversed string stops at the reversed position of
      the last `c` of the string. */
  lemma ReverseTakeUntil(s: string, c: char, front: string, back: string)
    requires s == front + back && front != [] && front[|front| - 1] == c && c !in back
    ensures TakeUntil(Reverse(s), c) == Found(Reverse(front), Reverse(back))
  {
    ReverseAppend(front, back);
    ReverseContains(back, c);
    ReverseSpec(front);
    TakeUntilUnique(Reverse(s), c, Reverse(front), Reverse(back));
  }

  /** Trimming `c` from the front of the reversal and reversing back trims
      `c` from the end. */
  lemma ReverseTrimStartReverse(s: string, c: char)
    ensures Reverse(TrimStartMatches(Reverse(s), c)) == TrimEndMatches(s, c)
  {
    TrimStartOfReverse(s, c);
    ReverseReverse(TrimEndMatches(s, c));
  }

  /** Removes one trailing carriage return, as `str::lines` does for a line
      that ended in "\r\n". */
  function StripCarriageReturn(line: string): (r: string)
    ensures |r| <= |line| && r == line[..|r|] && |line| - 1 <= |r|
    ensures |r| < |line| <==> (line != [] && line[|line| - 1] == '\r')
  {
    if line != [] && line[|line| - 1] == '\r' then line[..|line| - 1] else line
  }

  /** `str::lines`: splits at every '\n', removes one '\r' in front of each
      '\n', and yields no empty final line after a terminating '\n'. A '\r'
      at the end of an unterminated final line is kept. */
  function Lines(s: string): seq<string>
    decreases |s|
  {
    if s == [] then []
    else if '\n' !in s then [s]
    else
      var i := IndexOf(s, '\n');
      [StripCarriageReturn(s[..i])] + Lines(s[i + 1..])
  }

  /** Text made of the given lines, each followed by '\n'. */
  function JoinLines(lines: seq<string>): string {
    if lines == [] then [] else lines[0] + "\n" + JoinLines(lines[1..])
  }

  /** A line that `str::lines` gives back unchanged: no '\n' inside and no
      '\r' at its end. */
  predicate PlainLine(line: string) {
    '\n' !in line && (line == [] || line[|line| - 1] != '\r')
  }

  /** Lines that contain no '\n' and do not end in '\r' come back unchanged
      from `str::lines` after being joined with terminating newlines. */
  lemma {:induction false} LinesJoinLines(lines: seq<string>)
    requires forall k :: 0 <= k < |lines| ==> PlainLine(lines[k])
    ensures Lines(JoinLines(lines)) == lines
  {
    if lines != [] {
      LinesCons(lines[0], JoinLines(lines[1..]));
      LinesJoinLines(lines[1..]);
      assert [lines[0]] + lines[1..] == lines;
    }
  }

  /** The first line of a text ends at its first '\n'. */
  lemma LinesSplitAt(s: string, i: nat)
    requires i < |s| && s[i] == '\n' && '\n' !in s[..i]
    ensures Lines(s) == [StripCarriageReturn(s[..i])] + Lines(s[i + 1..])
  {
    IndexOfUnique(s, '\n', i);
  }

  /** A plain line followed by '\n' is the first line of the text. */
  lemma LinesCons(line: string, rest: string)
    requires PlainLine(line)
    ensures Lines(line + "\n" + rest) == [line] + Lines(rest)
  {
    var s := line + "\n" + rest;
    assert s[|line|] == '\n' && s[..|line|] == line && s[|line| + 1..] == rest;
    LinesSplitAt(s, |line|);
  }

  /** A "\r\n" ending counts as a plain '\n': the '\r' in front of it is
      dropped, so text written with Windows line endings gives the same
      lines. */
  lemma LinesCrLf(line: string, rest: string)
    requires '\n' !in line
    ensures Lines(line + "\r\n" + rest) == [line] + Lines(rest)
  {
    var s := line + "\r\n" + rest;
    assert s[|line| + 1] == '\n' && s[..|line| + 1] == line + "\r" && s[|line| + 2..] == rest;
    assert '\n' !in s[..|line| + 1];
    LinesSplitAt(s, |line| + 1);
    assert (line + "\r")[..|line|] == line;
  }

  /** A last line without a terminating '\n' is kept whole, including a
      '\r' at its end. */
  lemma LinesUnterminated(line: string)
    requires line != [] && '\n' !in line
    ensures Lines(line) == [line]
  {
  }

  /** No line holds a '\n'. */
  lemma {:induction false} LinesHaveNoNewline(s: string)
    ensures forall k :: 0 <= k < |Lines(s)| ==> '\n' !in Lines(s)[k]
    decreases |s|
  {
    if s != [] && '\n' in s {
      var i := IndexOf(s, '\n');
      IndexOfFirst(s, '\n');
      LinesSplitAt(s, i);
      LinesHaveNoNewline(s[i + 1..]);
      var tail := Lines(s[i + 1..]);
      forall k | 0 < k < |Lines(s)|
        ensures '\n' !in Lines(s)[k]
      {
        assert Lines(s)[k] == tail[k - 1];
      }
    }
  }

  /** A terminating newline adds no line: a non-empty text whose last
      character is neither '\n' nor '\r' has the same lines with or without
      a final '\n'. */
  lemma {:induction false} LinesTrailingNewline(s: string)
    requires s != [] && s[|s| - 1] != '\n' && s[|s| - 1] != '\r'
    ensures Lines(s + "\n") == Lines(s)
    decreases |s|
  {
    var t := s + "\n";
    if '\n' !in s {
      assert t[|s|] == '\n' && t[..|s|] == s && t[|s| + 1..] == [];
      LinesSplitAt(t, |s|);
    } else {
      var i := IndexOf(s, '\n');
      IndexOfFirst(s, '\n');
      assert i < |s| - 1;
      assert t[i] == '\n' && t[..i] == s[..i] && t[i + 1..] == s[i + 1..] + "\n";
      LinesSplitAt(t, i);
      LinesSplitAt(s, i);
      LinesTrailingNewline(s[i + 1..]);
    }
  }
}
