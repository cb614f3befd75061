/** Python string operations used by the modelled code, with the laws the proofs need. */
module Text {
  /** `str.isspace` for one character. */
  predicate IsSpace(c: char) {
    var n := c as int;
    || 0x09 <= n <= 0x0D || 0x1C <= n <= 0x20 || n == 0x85 || n == 0xA0 || n == 0x1680
    || 0x2000 <= n <= 0x200A || n == 0x2028 || n == 0x2029 || n == 0x202F || n == 0x205F || n == 0x3000
  }

  function LStrip(s: string): string {
    if s != "" && IsSpace(s[0]) then LStrip(s[1..]) else s
  }

  function RStrip(s: string): string {
    if s != "" && IsSpace(s[|s| - 1]) then RStrip(s[..|s| - 1]) else s
  }

  function Strip(s: string): string {
    RStrip(LStrip(s))
  }

  predicate IsBlank(s: string) {
    forall i :: 0 <= i < |s| ==> IsSpace(s[i])
  }

  predicate StartsWith(s: string, prefix: string) {
    prefix <= s
  }

  lemma {:induction false} RStripOfNonBlankTail(head: string, tail: string)
    requires !IsBlank(tail)
    ensures RStrip(head + tail) == head + RStrip(tail)
  {
    var n := |tail| - 1;
    assert (head + tail)[..|head| + n] == head + tail[..n];
    if IsSpace(tail[n]) {
      RStripOfNonBlankTail(head, tail[..n]);
    }
  }

  lemma {:induction false} RStripOfBlankTail(head: string, tail: string)
    requires IsBlank(tail)
    ensures RStrip(head + tail) == RStrip(head)
  {
    if tail == "" {
      assert head + tail == head;
    } else {
      var n := |tail| - 1;
      assert (head + tail)[..|head| + n] == head + tail[..n];
      RStripOfBlankTail(head, tail[..n]);
    }
  }

  lemma {:induction false} LStripIsSuffix(s: string)
    ensures |LStrip(s)| <= |s| && LStrip(s) == s[|s| - |LStrip(s)|..]
    ensures LStrip(s) != "" ==> !IsSpace(LStrip(s)[0])
    ensures LStrip(s) == "" <==> IsBlank(s)
  {
    if s != "" && IsSpace(s[0]) {
      LStripIsSuffix(s[1..]);
      assert IsBlank(s[1..]) ==> IsBlank(s) by {
        if IsBlank(s[1..]) {
          forall i | 0 <= i < |s| ensures IsSpace(s[i]) {
            assert i > 0 ==> s[i] == s[1..][i - 1];
          }
        }
      }
    }
  }

  lemma {:induction false} RStripIsPrefix(s: string)
    ensures RStrip(s) <= s
    ensures RStrip(s) != "" ==> !IsSpace(RStrip(s)[|RStrip(s)| - 1])
    ensures RStrip(s) == "" <==> IsBlank(s)
  {
    if s != "" && IsSpace(s[|s| - 1]) {
      RStripIsPrefix(s[..|s| - 1]);
      assert IsBlank(s[..|s| - 1]) ==> IsBlank(s);
    }
  }

  // ---------------------------------------------------------------- order

  /** Python's `<` on strings: by code points, lexicographically. */
  predicate Less(a: string, b: string) {
    if b == "" then false
    else if a == "" then true
    else if a[0] != b[0] then a[0] < b[0]
    else Less(a[1..], b[1..])
  }

  lemma {:induction false} LessIsTotal(a: string, b: string)
    ensures Less(a, b) || a == b || Less(b, a)
    ensures !(Less(a, b) && Less(b, a)) && !Less(a, a)
  {
    if a != "" && b != "" && a[0] == b[0] {
      LessIsTotal(a[1..], b[1..]);
      assert a == [a[0]] + a[1..] && b == [b[0]] + b[1..];
    }
    if a != "" {
      LessIsTotal(a[1..], a[1..]);
    }
  }

  lemma {:induction false} LessIsTransitive(a: string, b: string, c: string)
    requires Less(a, b) && Less(b, c)
    ensures Less(a, c)
  {
    if a != "" && a[0] == b[0] == c[0] {
      LessIsTransitive(a[1..], b[1..], c[1..]);
    }
  }

  /** The first character in which the texts differ decides; a proper beginning comes first. */
  ghost predicate DiffersAt(a: string, b: string, k: nat) {
    k <= |a| && k < |b| && a[..k] == b[..k] && (k == |a| || a[k] < b[k])
  }

  lemma {:induction false} LessDiffers(a: string, b: string) returns (k: nat)
    requires Less(a, b)
    ensures DiffersAt(a, b, k)
  {
    if a == "" || a[0] != b[0] {
      k := 0;
    } else {
      var rest := LessDiffers(a[1..], b[1..]);
      k := rest + 1;
      assert a[..k] == [a[0]] + a[1..][..rest] && b[..k] == [b[0]] + b[1..][..rest];
    }
  }

  lemma {:induction false} DiffersLess(a: string, b: string, k: nat)
    requires DiffersAt(a, b, k)
    ensures Less(a, b)
  {
    if k > 0 {
      assert a[0] == a[..k][0] && b[0] == b[..k][0];
      assert a[1..][..k - 1] == a[..k][1..] && b[1..][..k - 1] == b[..k][1..];
      DiffersLess(a[1..], b[1..], k - 1);
    }
  }

  lemma LessIff(a: string, b: string)
    ensures Less(a, b) <==> exists k: nat :: DiffersAt(a, b, k)
  {
    if Less(a, b) {
      var k := LessDiffers(a, b);
    }
    if k: nat :| DiffersAt(a, b, k) {
      DiffersLess(a, b, k);
    }
  }

  // ---------------------------------------------------------------- lines

  /** `s.split('\n')` */
  function SplitLines(s: string): (lines: seq<string>)
    ensures |lines| >= 1
  {
    if s == "" then [""]
    else
      var rest := SplitLines(s[1..]);
      if s[0] == '\n' then [""] + rest else [[s[0]] + rest[0]] + rest[1..]
  }

  predicate NoNewlines(lines: seq<string>) {
    forall i :: 0 <= i < |lines| ==> '\n' !in lines[i]
  }

  lemma {:induction false} SplitHasNoNewlines(s: string)
    ensures NoNewlines(SplitLines(s))
  {
    if s != "" {
      SplitHasNoNewlines(s[1..]);
    }
  }

  /** `'\n'.join(lines)` */
  function JoinLines(lines: seq<string>): string {
    if |lines| == 0 then "" else if |lines| == 1 then lines[0] else lines[0] + "\n" + JoinLines(lines[1..])
  }

  lemma {:induction false} JoinOfSplit(s: string)
    ensures JoinLines(SplitLines(s)) == s
  {
    if s != "" {
      JoinOfSplit(s[1..]);
      var rest := SplitLines(s[1..]);
      var lines := SplitLines(s);
      if s[0] == '\n' {
        assert lines[1..] == rest;
      } else {
        assert lines[1..] == rest[1..];
        assert JoinLines(lines) == [s[0]] + JoinLines(rest);
      }
    }
  }

  lemma {:induction false} SplitOfLine(line: string, rest: string)
    requires '\n' !in line
    ensures SplitLines(line) == [line]
    ensures SplitLines(line + "\n" + rest) == [line] + SplitLines(rest)
  {
    if line == "" {
      assert line + "\n" + rest == "\n" + rest;
      assert ("\n" + rest)[1..] == rest;
    } else {
      SplitOfLine(line[1..], rest);
      assert line == [line[0]] + line[1..];
      assert (line + "\n" + rest)[1..] == line[1..] + "\n" + rest;
    }
  }

  lemma {:induction false} SplitOfJoin(lines: seq<string>)
    requires |lines| >= 1 && NoNewlines(lines)
    ensures SplitLines(JoinLines(lines)) == lines
  {
    if |lines| == 1 {
      SplitOfLine(lines[0], "");
    } else {
      SplitOfJoin(lines[1..]);
      SplitOfLine(lines[0], JoinLines(lines[1..]));
    }
  }

  lemma {:induction false} JoinOfParts(front: seq<string>, back: seq<string>)
    requires |front| >= 1 && |back| >= 1
    ensures JoinLines(front + back) == JoinLines(front) + "\n" + JoinLines(back)
  {
    if |front| == 1 {
      assert (front + back)[1..] == back;
    } else {
      JoinOfParts(front[1..], back);
      assert (front + back)[1..] == front[1..] + back;
    }
  }
}
