/** Character-sequence helpers shared by the rasterizer and the file-name builder. */
module Strings {

  function Max(a: int, b: int): int { if a < b then b else a }

  /** A run of `n` zero characters. */
  function Zeros(n: nat): (z: string)
    ensures |z| == n
    ensures forall i :: 0 <= i < n ==> z[i] == '0'
  {
    seq(n, _ => '0')
  }

  /** `s` left-padded with '0' to at least `width` characters. */
  function LeftPad(s: string, width: nat): (r: string)
    ensures |r| == Max(width, |s|)
    ensures r[|r| - |s|..] == s
    ensures forall i :: 0 <= i < |r| - |s| ==> r[i] == '0'
  {
    if |s| < width then Zeros(width - |s|) + s else s
  }

  /**
   * Prepends '0' until the string is at least `width` long: the
   * `while len(t) < width: t = "0" + t` loop of the source.
   */
  method PadZeros(s: string, width: nat) returns (t: string)
    ensures t == LeftPad(s, width)
  {
    t := s;
    while |t| < width
      invariant |t| == |s| || |s| < |t| <= width
      invariant t == Zeros(|t| - |s|) + s
      decreases width - |t|
    {
      ZerosCons(|t| - |s|, s);
      t := "0" + t;
    }
    if |t| == |s| {
      assert t == s by { assert Zeros(0) + s == s; }
    }
  }

  lemma ZerosCons(n: nat, s: string)
    ensures "0" + (Zeros(n) + s) == Zeros(n + 1) + s
  {
    assert "0" + Zeros(n) == Zeros(n + 1);
  }

  lemma AppendAssoc(a: string, b: string, c: string)
    ensures (a + b) + c == a + (b + c)
  {}

  lemma AppendFour(a: string, b: string, c: string, d: string)
    ensures a + b + c + d == a + (b + (c + d))
  {}

  /** `s` with its leading '0' characters removed. */
  function StripLeadingZeros(s: string): (r: string)
    ensures |r| <= |s| && r == s[|s| - |r|..]
    ensures r == [] || r[0] != '0'
  {
    if s != [] && s[0] == '0' then StripLeadingZeros(s[1..]) else s
  }

  /** Zeros added on the left are exactly what stripping removes again. */
  lemma {:induction false} StripLeadingZerosOfPadding(n: nat, s: string)
    ensures StripLeadingZeros(Zeros(n) + s) == StripLeadingZeros(s)
  {
    if n > 0 {
      var p := Zeros(n) + s;
      assert p[0] == '0';
      assert p[1..] == Zeros(n - 1) + s;
      StripLeadingZerosOfPadding(n - 1, s);
    } else {
      assert Zeros(n) + s == s;
    }
  }

  /** Concatenation of a sequence of lines, in order. */
  function Concat(lines: seq<string>): string
  {
    if lines == [] then [] else Concat(lines[..|lines| - 1]) + lines[|lines| - 1]
  }

  lemma ConcatSnoc(a: seq<string>, line: string)
    ensures Concat(a + [line]) == Concat(a) + line
  {
    assert (a + [line])[..|a|] == a;
  }

  /** Extending the taken prefix of `row` by one line appends that line to the text. */
  lemma ConcatPrefixStep(done: seq<string>, row: seq<string>, x: nat)
    requires x < |row|
    ensures Concat(done + row[..x + 1]) == Concat(done + row[..x]) + row[x]
  {
    assert done + row[..x + 1] == (done + row[..x]) + [row[x]];
    ConcatSnoc(done + row[..x], row[x]);
  }

  /**
   * Appending line `x` of `row` to a text that ends with the concatenation
   * of `done` and the first `x` lines of `row`.
   */
  lemma AppendNextLine(head: string, body: string, done: seq<string>, row: seq<string>, x: nat)
    requires x < |row|
    requires body == Concat(done + row[..x])
    ensures (head + body) + row[x] == head + (body + row[x])
    ensures body + row[x] == Concat(done + row[..x + 1])
  {
    ConcatPrefixStep(done, row, x);
  }

  /**
   * Joining two parts with a separator that the first part does not contain
   * can be undone: the first occurrence of the separator marks the split.
   */
  lemma SplitAtSeparator(a: string, b: string, c: string, d: string, sep: char)
    requires sep !in a && sep !in c
    requires a + [sep] + b == c + [sep] + d
    ensures a == c && b == d
  {
    var x := a + [sep] + b;
    assert x[|a|] == sep && x[|c|] == sep;
    assert forall i :: 0 <= i < |a| ==> x[i] == a[i];
    assert forall i :: 0 <= i < |c| ==> x[i] == c[i];
    assert |a| == |c|;
    assert a == (a + [sep] + b)[..|a|];
    assert c == (c + [sep] + d)[..|c|];
    assert b == (a + [sep] + b)[|a| + 1..];
    assert d == (c + [sep] + d)[|c| + 1..];
  }
}
