/**
  `nameFrom83`: the 11-character name field of a directory entry (eight
  characters of base name and three of extension, both padded with spaces)
  turned into the lower-case `name.ext` form the driver stores in
  `File::name`.
*/
module NameCodec {
  import opened Words

  /** Length of the name field of a directory entry. */
  const FieldLength: nat := 11

  /**
    The first loop: `index1` starts at 7 and becomes every position among
    the first eight whose character is not a space.
  */
  function LastBase(s: string, i: nat, index1: nat): (r: nat)
    requires |s| >= 8 && i <= 8 && index1 < 8
    ensures r < 8
    decreases 8 - i
  {
    if i == 8 then index1 else LastBase(s, i + 1, if s[i] != ' ' then i else index1)
  }

  /**
    The first loop finds the last non-space among positions `i..7`, and
    keeps `index1` when there is none.
  */
  lemma {:induction false} LastBaseFinds(s: string, i: nat, index1: nat)
    requires |s| >= 8 && i <= 8 && index1 < 8
    ensures var r := LastBase(s, i, index1);
      && ((exists j :: i <= j < 8 && s[j] != ' ') ==>
            i <= r && s[r] != ' ' && forall j :: r < j < 8 ==> s[j] == ' ')
      && ((forall j :: i <= j < 8 ==> s[j] == ' ') ==> r == index1)
    decreases 8 - i
  {
    if i < 8 {
      LastBaseFinds(s, i + 1, if s[i] != ' ' then i else index1);
    }
  }

  /**
    Length of the base name: up to and including the last non-space of the
    first eight characters, or all eight when they are all spaces.
  */
  function BaseLength(s: string): (n: nat)
    requires |s| >= 8
    ensures 1 <= n <= 8
  {
    LastBase(s, 0, 7) + 1
  }

  /** Only spaces follow the base; it ends in a non-space unless all eight are spaces. */
  lemma BaseLengthTrims(s: string)
    requires |s| >= 8
    ensures var n := BaseLength(s);
      && (forall j :: n <= j < 8 ==> s[j] == ' ')
      && ((exists j :: 0 <= j < 8 && s[j] != ' ') ==> s[n - 1] != ' ')
      && ((forall j :: 0 <= j < 8 ==> s[j] == ' ') ==> n == 8)
  {
    LastBaseFinds(s, 0, 7);
  }

  /** The second loop: the lowered non-space characters of `s[i..11]` appended to `acc`. */
  function ExtScan(s: string, i: nat, acc: string): string
    requires |s| >= FieldLength && 8 <= i <= FieldLength
    decreases FieldLength - i
  {
    if i == FieldLength then acc
    else ExtScan(s, i + 1, if s[i] != ' ' then acc + [ToLower(s[i])] else acc)
  }

  /** Reference: the characters of `s` other than spaces, in order. */
  function NonSpace(s: string): (r: string)
    ensures |r| <= |s|
    ensures ' ' !in r
  {
    if |s| == 0 then [] else (if s[0] == ' ' then [] else [s[0]]) + NonSpace(s[1..])
  }

  /** The second loop collects exactly the lowered non-space extension characters. */
  lemma {:induction false} ExtScanIsNonSpace(s: string, i: nat, acc: string)
    requires |s| >= FieldLength && 8 <= i <= FieldLength
    ensures ExtScan(s, i, acc) == acc + Lower(NonSpace(s[i..FieldLength]))
    decreases FieldLength - i
  {
    if i < FieldLength {
      var head: string := if s[i] == ' ' then [] else [ToLower(s[i])];
      var rest := Lower(NonSpace(s[i + 1..FieldLength]));
      ExtScanStep(s, i, acc);
      ExtScanIsNonSpace(s, i + 1, acc + head);
      LowerNonSpaceStep(s, i);
      assert (acc + head) + rest == acc + (head + rest);
    } else {
      assert acc + Lower([]) == acc;
    }
  }

  /** One step of the second loop. */
  lemma ExtScanStep(s: string, i: nat, acc: string)
    requires |s| >= FieldLength && 8 <= i < FieldLength
    ensures var head: string := if s[i] == ' ' then [] else [ToLower(s[i])];
      ExtScan(s, i, acc) == ExtScan(s, i + 1, acc + head)
  {
    if s[i] == ' ' {
      assert acc + [] == acc;
    }
  }

  /** The lowered non-space characters of `s[i..11]`, peeled by one character. */
  lemma LowerNonSpaceStep(s: string, i: nat)
    requires |s| >= FieldLength && 8 <= i < FieldLength
    ensures var head: string := if s[i] == ' ' then [] else [ToLower(s[i])];
      Lower(NonSpace(s[i..FieldLength])) == head + Lower(NonSpace(s[i + 1..FieldLength]))
  {
    var t := s[i..FieldLength];
    assert t[1..] == s[i + 1..FieldLength];
    var h: string := if s[i] == ' ' then [] else [s[i]];
    assert NonSpace(t) == h + NonSpace(t[1..]);
    LowerAppend(h, NonSpace(t[1..]));
  }

  lemma LowerAppend(a: string, b: string)
    ensures Lower(a + b) == Lower(a) + Lower(b)
  {
    var l, r := Lower(a + b), Lower(a) + Lower(b);
    assert |l| == |r|;
    forall j | 0 <= j < |l|
      ensures l[j] == r[j]
    {
      if j < |a| {
        assert (a + b)[j] == a[j];
      } else {
        assert (a + b)[j] == b[j - |a|];
      }
    }
  }

  /**
    `nameFrom83(in, out)`: the first `BaseLength` characters lowered, then,
    when some extension character is not a space, a '.' and the lowered
    non-space extension characters. Spaces inside the base are kept, spaces
    inside the extension are dropped. The result fits `File::name` with its
    terminating NUL.
  */
  function NameFrom83(s: string): (r: string)
    requires |s| >= FieldLength
    ensures |r| <= 12
  {
    var n := BaseLength(s);
    var ext := ExtScan(s, 8, []);
    ExtScanIsNonSpace(s, 8, []);
    assert ext == Lower(NonSpace(s[8..FieldLength]));
    Terminate(Lower(s[..n]), ext)
  }

  /**
    The parts of the result: the first `BaseLength` characters lowered, then,
    when the extension field holds a non-space, a '.' and the lowered
    non-space extension characters.
  */
  lemma NameFrom83Parts(s: string)
    requires |s| >= FieldLength
    ensures var r := NameFrom83(s);
      var n := BaseLength(s);
      var ext := NonSpace(s[8..FieldLength]);
      && |r| >= n
      && r[..n] == Lower(s[..n])
      && (ext == [] ==> |r| == n)
      && (ext != [] ==> r[n..] == ['.'] + Lower(ext))
  {
    var n := BaseLength(s);
    var scanned := ExtScan(s, 8, []);
    assert NameFrom83(s) == Terminate(Lower(s[..n]), scanned);
    ExtScanIsNonSpace(s, 8, []);
    var ext := NonSpace(s[8..FieldLength]);
    assert scanned == Lower(ext) by {
      assert [] + Lower(ext) == Lower(ext);
    }
    assert |Lower(ext)| == |ext|;
  }

  /** Where the terminating NUL goes: after the base, or after `.` and the extension. */
  function Terminate(base: string, ext: string): (r: string)
    ensures |r| >= |base| && r[..|base|] == base
    ensures ext == [] ==> |r| == |base|
    ensures ext != [] ==> r[|base|..] == ['.'] + ext
  {
    if |ext| > 0 then base + ['.'] + ext else base
  }

  /** A name field built from a base of 1 to 8 characters and an extension of up to 3, space padded. */
  function Pack83(base: string, ext: string): (r: string)
    requires 1 <= |base| <= 8 && |ext| <= 3
    ensures |r| == FieldLength
  {
    base + seq(8 - |base|, _ => ' ') + ext + seq(3 - |ext|, _ => ' ')
  }

  /**
    Round trip: a base whose last character is not a space and an extension
    without spaces come back as `base.ext` (just `base` when the extension
    is empty), lowered.
  */
  lemma NameFrom83OfPack(base: string, ext: string)
    requires 1 <= |base| <= 8 && |ext| <= 3
    requires base[|base| - 1] != ' ' && ' ' !in ext
    ensures NameFrom83(Pack83(base, ext)) == Lower(base) + (if ext == [] then [] else ['.'] + Lower(ext))
  {
    var s := Pack83(base, ext);
    var n := |base|;
    PackFields(base, ext);
    NameFrom83Parts(s);
    var r := NameFrom83(s);
    assert r[..n] == Lower(base) by {
      assert r[..n] == Lower(s[..n]);
    }
    if ext == [] {
      assert r == r[..n];
    } else {
      assert r[n..] == ['.'] + Lower(ext);
      assert r == r[..n] + r[n..];
    }
  }

  /** The two fields of a packed name read back as the base and the extension. */
  lemma PackFields(base: string, ext: string)
    requires 1 <= |base| <= 8 && |ext| <= 3
    requires base[|base| - 1] != ' ' && ' ' !in ext
    ensures Pack83(base, ext)[..|base|] == base
    ensures BaseLength(Pack83(base, ext)) == |base|
    ensures NonSpace(Pack83(base, ext)[8..FieldLength]) == ext
  {
    var s := Pack83(base, ext);
    BaseLengthTrims(s);
    assert s[..|base|] == base;
    assert s[8..FieldLength][..|ext|] == ext;
    NonSpaceOfPadded(ext, s[8..FieldLength]);
  }

  /** Stripping the spaces from a space-free text padded with spaces gives the text back. */
  lemma {:induction false} NonSpaceOfPadded(t: string, padded: string)
    requires ' ' !in t && |t| <= |padded|
    requires padded[..|t|] == t && forall j :: |t| <= j < |padded| ==> padded[j] == ' '
    ensures NonSpace(padded) == t
    decreases |padded|
  {
    if |padded| > 0 {
      if |t| > 0 {
        NonSpaceOfPadded(t[1..], padded[1..]);
      } else {
        NonSpaceOfPadded(t, padded[1..]);
      }
    }
  }

  /** An all-space field gives a base of eight spaces and no extension. */
  lemma AllSpaces()
    ensures NameFrom83("           ") == "        "
  {
    var s := "           ";
    NonSpaceOfPadded([], s[8..FieldLength]);
    BaseLengthTrims(s);
    NameFrom83Parts(s);
  }
}
