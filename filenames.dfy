/**
 * The input and output file names of one tag id: `tag`, the zero-padded
 * number fields found in the tag path, the id padded to at least five
 * characters, and `.png` (input) or `.svg` (output).
 */
module FileNames {
  import opened Strings
  import opened Decimal

  /** Number of leading digits of `s`. */
  function DigitPrefixLength(s: string): (n: nat)
    ensures n <= |s|
    ensures forall i :: 0 <= i < n ==> IsDigit(s[i])
    ensures n < |s| ==> !IsDigit(s[n])
  {
    if s != [] && IsDigit(s[0]) then 1 + DigitPrefixLength(s[1..]) else 0
  }

  /** `re.findall(r"\d+", s)`: the maximal runs of digits in `s`, left to right. */
  function DigitRuns(s: string): (runs: seq<string>)
    ensures forall k :: 0 <= k < |runs| ==> runs[k] != [] && AllDigits(runs[k])
    decreases |s|
  {
    if s == [] then []
    else if !IsDigit(s[0]) then DigitRuns(s[1..])
    else
      var n := DigitPrefixLength(s);
      [s[..n]] + DigitRuns(s[n..])
  }

  /** A string of digits is one single run. */
  lemma DigitRunsOfNumber(d: string)
    requires d != [] && AllDigits(d)
    ensures DigitRuns(d) == [d]
  {
    DigitPrefixUnique(d, |d|);
    assert d[..|d|] == d;
    assert d[|d|..] == [];
  }

  /** A string without digits has no runs. */
  lemma {:induction false} DigitRunsWithoutDigits(s: string)
    requires forall i :: 0 <= i < |s| ==> !IsDigit(s[i])
    ensures DigitRuns(s) == []
  {
    if s != [] {
      DigitRunsWithoutDigits(s[1..]);
    }
  }

  /**
   * Runs are maximal: a non-digit separates the runs before it from the
   * runs after it, and no run crosses it.
   */
  lemma {:induction false} DigitRunsSplit(a: string, c: char, b: string)
    requires !IsDigit(c)
    ensures DigitRuns(a + [c] + b) == DigitRuns(a) + DigitRuns(b)
    decreases |a|
  {
    var s := a + [c] + b;
    if a == [] {
      assert s[1..] == b;
    } else if !IsDigit(a[0]) {
      assert s[1..] == a[1..] + [c] + b;
      DigitRunsSplit(a[1..], c, b);
    } else {
      var m := DigitPrefixLength(a);
      assert m < |a| ==> s[m] == a[m];
      assert m == |a| ==> s[m] == c;
      assert forall i :: 0 <= i < m ==> s[i] == a[i];
      assert DigitPrefixLength(s) == m by {
        DigitPrefixUnique(s, m);
      }
      assert s[..m] == a[..m];
      assert s[m..] == a[m..] + [c] + b;
      DigitRunsSplit(a[m..], c, b);
    }
  }

  /** The three properties of `DigitPrefixLength` pin it down. */
  lemma DigitPrefixUnique(s: string, m: nat)
    requires m <= |s|
    requires forall i :: 0 <= i < m ==> IsDigit(s[i])
    requires m < |s| ==> !IsDigit(s[m])
    ensures DigitPrefixLength(s) == m
  {
  }

  /** `str(i)` left-padded with '0' to at least five characters. */
  function PaddedId(id: int): string
  {
    LeftPad(IntToString(id), 5)
  }

  /**
   * The padded id is `str(id)` behind as many '0' as bring it to five
   * characters: at least five characters long, unchanged when `str(id)` is
   * already that long, and all digits for a non-negative id.
   */
  lemma PaddedIdShape(id: int)
    ensures |PaddedId(id)| == Max(5, |IntToString(id)|)
    ensures |IntToString(id)| >= 5 ==> PaddedId(id) == IntToString(id)
    ensures PaddedId(id) == Zeros(|PaddedId(id)| - |IntToString(id)|) + IntToString(id)
    ensures id >= 0 ==> AllDigits(PaddedId(id))
  {
    var s := IntToString(id);
    var p := PaddedId(id);
    assert p == p[..|p| - |s|] + p[|p| - |s|..];
    assert p[..|p| - |s|] == Zeros(|p| - |s|);
  }

  /** Dropping the leading zeros of the padded id gives back `str(id)`, for every id but 0. */
  lemma PaddedIdStrip(id: int)
    requires id != 0
    ensures StripLeadingZeros(PaddedId(id)) == IntToString(id)
  {
    var s := IntToString(id);
    PaddedIdShape(id);
    StripLeadingZerosOfPadding(|PaddedId(id)| - |s|, s);
  }

  /** Id 0 pads to five zeros. */
  lemma PaddedIdZero()
    ensures PaddedId(0) == Zeros(5)
  {
    assert IntToString(0) == "0";
    assert Zeros(4) + "0" == Zeros(5);
  }

  lemma {:induction false} StripZeros(n: nat)
    ensures StripLeadingZeros(Zeros(n)) == []
  {
    if n > 0 {
      assert Zeros(n)[1..] == Zeros(n - 1);
      StripZeros(n - 1);
    }
  }

  /** Distinct ids give distinct padded ids. */
  lemma PaddedIdInjective(i: int, j: int)
    requires PaddedId(i) == PaddedId(j)
    ensures i == j
  {
    PaddedIdZero();
    StripZeros(5);
    if i != 0 {
      PaddedIdStrip(i);
    }
    if j != 0 {
      PaddedIdStrip(j);
    }
    IntToStringInjective(i, j);
  }

  /** Python's `str(-5)` pads to `000-5`. */
  lemma PaddedNegativeId()
    ensures PaddedId(-5) == "000-5"
  {
    assert NatToString(5) == "5";
    assert IntToString(-5) == "-5";
  }

  /** One number field: the run padded to two digits, then `_`. */
  function Field(run: string): string
  {
    LeftPad(run, 2) + "_"
  }

  /** The number fields, in the order of the runs. */
  function TypeFields(runs: seq<string>): string
  {
    if runs == [] then "" else TypeFields(runs[..|runs| - 1]) + Field(runs[|runs| - 1])
  }

  lemma TypeFieldsStep(fields: string, runs: seq<string>, i: nat)
    requires i < |runs| && fields == TypeFields(runs[..i])
    ensures fields + Field(runs[i]) == TypeFields(runs[..i + 1])
  {
    assert runs[..i + 1][..i] == runs[..i];
  }

  /** The input file name for tag `id`, from the digit runs of `tagFile`. */
  function FileName(tagFile: string, id: int): string
  {
    "tag" + TypeFields(DigitRuns(tagFile)) + PaddedId(id) + ".png"
  }

  /** `file_name[:-4] + ".svg"`: the last four characters replaced by `.svg`. */
  function OutputName(fileName: string): string
  {
    (if |fileName| >= 4 then fileName[..|fileName| - 4] else "") + ".svg"
  }

  /** The output name of an input file name swaps `.png` for `.svg`. */
  lemma OutputNameOfFileName(tagFile: string, id: int)
    ensures OutputName(FileName(tagFile, id)) == "tag" + TypeFields(DigitRuns(tagFile)) + PaddedId(id) + ".svg"
  {
    var stem := "tag" + TypeFields(DigitRuns(tagFile)) + PaddedId(id);
    assert FileName(tagFile, id) == stem + ".png";
    assert (stem + ".png")[..|stem|] == stem;
  }

  /** With no digits in the tag path the name is `tag`, the padded id and `.png`. */
  lemma FileNameWithoutNumbers(tagFile: string, id: int)
    requires forall i :: 0 <= i < |tagFile| ==> !IsDigit(tagFile[i])
    ensures FileName(tagFile, id) == "tag" + PaddedId(id) + ".png"
  {
    DigitRunsWithoutDigits(tagFile);
  }

  lemma PaddedSmallIds()
    ensures PaddedId(7) == "00007" && PaddedId(42) == "00042"
  {
    assert IntToString(7) == "7" by {
      assert NatToString(7) == [DigitChar(7)];
    }
    assert IntToString(42) == "42" by {
      assert NatToString(4) == "4";
      assert NatToString(42) == NatToString(4) + [DigitChar(2)];
    }
    assert Zeros(4) == "0000";
    assert Zeros(3) == "000";
  }

  /** A run of two or more digits is kept as it is; a single digit gains a leading '0'. */
  lemma FieldPadding(run: string)
    requires run != []
    ensures |run| >= 2 ==> Field(run) == run + "_"
    ensures |run| == 1 ==> Field(run) == ['0', run[0], '_']
  {
  }

  /**
   * A tag path with two number fields of two digits each (`52` and `13` in
   * the directory `tagStandard52h13`, say) gives `tag52_13_` followed by the
   * padded id and `.png`.
   */
  lemma FileNameOfFamily(familyDir: string, r1: string, r2: string, id: int)
    requires DigitRuns(familyDir) == [r1, r2]
    requires |r1| == 2 && |r2| == 2
    ensures FileName(familyDir, id) == "tag" + (r1 + "_" + (r2 + "_")) + PaddedId(id) + ".png"
  {
    assert [r1, r2][..1] == [r1];
    assert [r1][..0] == [];
    FieldPadding(r1);
    FieldPadding(r2);
    assert TypeFields([r1]) == r1 + "_" by { assert TypeFields([r1]) == "" + Field(r1); }
  }

  /** A tag path without digits gives `tag00042.png` for tag 42. */
  lemma FileNameOfPlainPath(plainDir: string)
    requires forall i :: 0 <= i < |plainDir| ==> !IsDigit(plainDir[i])
    ensures FileName(plainDir, 42) == "tag00042.png"
  {
    FileNameWithoutNumbers(plainDir, 42);
    PaddedSmallIds();
  }

  /** Concatenated run lists give concatenated number fields. */
  lemma {:induction false} TypeFieldsAppend(a: seq<string>, b: seq<string>)
    ensures TypeFields(a + b) == TypeFields(a) + TypeFields(b)
    decreases |b|
  {
    if b == [] {
      assert a + b == a;
    } else {
      var b' := b[..|b| - 1];
      var f := Field(b[|b| - 1]);
      assert (a + b)[..|a + b| - 1] == a + b';
      assert TypeFields(a + b) == TypeFields(a + b') + f;
      TypeFieldsAppend(a, b');
      AppendAssoc(TypeFields(a), TypeFields(b'), f);
    }
  }

  /**
   * The whole tag path is searched: for a path `dir/file` the number fields
   * of the directory come first, then those of the file name.
   */
  lemma FileNameOfPath(dir: string, sep: char, file: string, id: int)
    requires !IsDigit(sep)
    ensures FileName(dir + [sep] + file, id)
         == "tag" + (TypeFields(DigitRuns(dir)) + TypeFields(DigitRuns(file))) + PaddedId(id) + ".png"
  {
    DigitRunsSplit(dir, sep, file);
    TypeFieldsAppend(DigitRuns(dir), DigitRuns(file));
  }

  /** Two ids of one range never share an input file name. */
  lemma FileNameInjective(tagFile: string, i: int, j: int)
    requires FileName(tagFile, i) == FileName(tagFile, j)
    ensures i == j
  {
    var p := "tag" + TypeFields(DigitRuns(tagFile));
    var a, b := PaddedId(i), PaddedId(j);
    assert FileName(tagFile, i) == p + a + ".png";
    assert FileName(tagFile, j) == p + b + ".png";
    assert |a| == |b|;
    assert a == (p + a + ".png")[|p|..|p| + |a|];
    assert b == (p + b + ".png")[|p|..|p| + |b|];
    PaddedIdInjective(i, j);
  }

  /** Two ids of one range never share an output file name. */
  lemma OutputNameInjective(tagFile: string, i: int, j: int)
    requires OutputName(FileName(tagFile, i)) == OutputName(FileName(tagFile, j))
    ensures i == j
  {
    OutputNameOfFileName(tagFile, i);
    OutputNameOfFileName(tagFile, j);
    var p := "tag" + TypeFields(DigitRuns(tagFile));
    var a, b := PaddedId(i), PaddedId(j);
    assert |a| == |b|;
    assert a == (p + a + ".svg")[|p|..|p| + |a|];
    assert b == (p + b + ".svg")[|p|..|p| + |b|];
    PaddedIdInjective(i, j);
  }

  /**
   * The loop body of `main` up to the file name: pads `str(i)` to five
   * characters, pads every number field of the tag path to two characters
   * in place, and appends each field and `_` to `tag`.
   */
  method BuildFileName(tagFile: string, id: int) returns (fileName: string)
    ensures fileName == FileName(tagFile, id)
  {
    var strId := IntToString(id);
    strId := PadZeros(strId, 5);
    ghost var runs := DigitRuns(tagFile);
    var numberTypes := DigitRuns(tagFile);
    ghost var fields: string := "";
    fileName := "tag";
    for i := 0 to |numberTypes|
      invariant |numberTypes| == |runs|
      invariant forall k :: i <= k < |runs| ==> numberTypes[k] == runs[k]
      invariant fields == TypeFields(runs[..i])
      invariant fileName == "tag" + fields
    {
      var padded := PadZeros(numberTypes[i], 2);
      numberTypes := numberTypes[i := padded];
      TypeFieldsStep(fields, runs, i);
      AppendFour("tag", fields, padded, "_");
      fields := fields + Field(runs[i]);
      fileName := fileName + numberTypes[i] + "_";
    }
    assert runs[..|runs|] == runs;
    fileName := fileName + strId + ".png";
  }
}
