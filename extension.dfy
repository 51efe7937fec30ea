/**
  Extension inference of the scene loader: `src.split('.').pop().toLowerCase()`.
  Case folding is restricted to ASCII letters.
*/
module Extension {

  predicate IsUpper(c: char) {
    'A' <= c <= 'Z'
  }

  /** No ASCII upper-case letter occurs in `s`. */
  predicate IsLowerCase(s: string) {
    forall i :: 0 <= i < |s| ==> !IsUpper(s[i])
  }

  function LowerChar(c: char): char {
    if IsUpper(c) then (c as int + 32) as char else c
  }

  /** `String.prototype.toLowerCase` on ASCII. */
  function Lower(s: string): (r: string)
    ensures |r| == |s|
    ensures forall i :: 0 <= i < |s| && IsUpper(s[i]) ==> r[i] as int == s[i] as int + 32
    ensures forall i :: 0 <= i < |s| && !IsUpper(s[i]) ==> r[i] == s[i]
    ensures IsLowerCase(r)
  {
    seq(|s|, i requires 0 <= i < |s| => LowerChar(s[i]))
  }

  /** `String.prototype.split('.')`: the maximal dot-free segments between the dots. */
  function Split(s: string): (parts: seq<string>)
    ensures |parts| >= 1
  {
    if s == [] then [""]
    else if s[0] == '.' then [""] + Split(s[1..])
    else
      var rest := Split(s[1..]);
      [[s[0]] + rest[0]] + rest[1..]
  }

  /** `Array.prototype.join('.')`, the inverse of `Split`. */
  function Join(parts: seq<string>): string
    requires |parts| >= 1
  {
    if |parts| == 1 then parts[0] else parts[0] + "." + Join(parts[1..])
  }

  /** `Array.prototype.pop()` on the (never empty) result of `Split`. */
  function Last(parts: seq<string>): string
    requires |parts| >= 1
  {
    parts[|parts| - 1]
  }

  /** The loader's `getExtension(src)`. */
  function GetExtension(src: string): (ext: string)
    ensures '.' !in ext
    ensures IsLowerCase(ext)
  {
    SegmentsDotFree(src);
    Lower(Last(Split(src)))
  }

  /** No segment of `Split(s)` contains a dot. */
  lemma {:induction false} SegmentsDotFree(s: string)
    ensures forall i :: 0 <= i < |Split(s)| ==> '.' !in Split(s)[i]
  {
    if s != [] {
      SegmentsDotFree(s[1..]);
      var rest := Split(s[1..]);
      if s[0] == '.' {
        assert Split(s) == [""] + rest;
      } else {
        var parts := [[s[0]] + rest[0]] + rest[1..];
        assert Split(s) == parts;
        forall i | 0 <= i < |parts| ensures '.' !in parts[i] {
          if i > 0 {
            assert parts[i] == rest[i];
          }
        }
      }
    }
  }

  lemma {:induction false} SplitJoin(s: string)
    ensures Join(Split(s)) == s
  {
    if s != [] {
      SplitJoin(s[1..]);
      var rest := Split(s[1..]);
      if s[0] == '.' {
        assert Split(s) == [""] + rest;
        assert ([""] + rest)[1..] == rest;
      } else {
        var parts := [[s[0]] + rest[0]] + rest[1..];
        assert Split(s) == parts;
        if |rest| == 1 {
          assert Join(rest) == rest[0];
        } else {
          assert parts[1..] == rest[1..];
          assert Join(rest) == rest[0] + "." + Join(rest[1..]);
        }
      }
    }
  }

  /** Splitting a dot-free prefix glued to `r` only extends the first segment of `r`. */
  lemma {:induction false} SplitDotFreePrefix(a: string, r: string)
    requires '.' !in a
    ensures Split(a + r) == [a + Split(r)[0]] + Split(r)[1..]
  {
    if a == [] {
      assert a + r == r;
      assert a + Split(r)[0] == Split(r)[0];
    } else {
      assert a[0] == (a + r)[0] && (a + r)[1..] == a[1..] + r;
      assert '.' !in a[1..] by {
        forall i | 0 <= i < |a[1..]| ensures a[1..][i] != '.' {
          assert a[1..][i] == a[i + 1];
        }
      }
      SplitDotFreePrefix(a[1..], r);
      assert [a[0]] + (a[1..] + Split(r)[0]) == a + Split(r)[0];
    }
  }

  lemma {:induction false} JoinSplit(parts: seq<string>)
    requires |parts| >= 1
    requires forall i :: 0 <= i < |parts| ==> '.' !in parts[i]
    ensures Split(Join(parts)) == parts
  {
    if |parts| == 1 {
      SplitDotFreePrefix(parts[0], "");
      assert parts[0] + "" == parts[0];
    } else {
      JoinSplit(parts[1..]);
      var tail := "." + Join(parts[1..]);
      SplitDotFreePrefix(parts[0], tail);
      assert tail[0] == '.' && tail[1..] == Join(parts[1..]);
      assert Split(tail) == [""] + parts[1..];
      assert parts[0] + "" == parts[0];
      assert parts[0] + "." + Join(parts[1..]) == parts[0] + tail;
      assert parts == [parts[0]] + parts[1..];
    }
  }

  /** A leading dot adds a segment in front; the last one stays. */
  lemma SplitStepDot(s: string)
    requires s != [] && s[0] == '.'
    ensures |Split(s)| > 1 && Last(Split(s)) == Last(Split(s[1..]))
  {
    assert Split(s) == [""] + Split(s[1..]);
  }

  /** A leading non-dot joins the first segment; the last one grows only when it is also the first. */
  lemma SplitStepChar(s: string)
    requires s != [] && s[0] != '.'
    ensures |Split(s)| == |Split(s[1..])|
    ensures |Split(s[1..])| == 1 ==> Last(Split(s)) == [s[0]] + Last(Split(s[1..]))
    ensures |Split(s[1..])| > 1 ==> Last(Split(s)) == Last(Split(s[1..]))
  {
    var rest := Split(s[1..]);
    assert Split(s) == [[s[0]] + rest[0]] + rest[1..];
  }

  /** The last segment is the suffix of `s` after the last dot (all of `s` when it has none). */
  lemma {:induction false} LastSegment(s: string)
    ensures |Last(Split(s))| <= |s|
    ensures s[|s| - |Last(Split(s))|..] == Last(Split(s))
    ensures |Last(Split(s))| == |s| || s[|s| - |Last(Split(s))| - 1] == '.'
    ensures |Last(Split(s))| == |s| <==> |Split(s)| == 1
  {
    if s != [] {
      var tail := s[1..];
      LastSegment(tail);
      if s[0] == '.' {
        SplitStepDot(s);
      } else {
        SplitStepChar(s);
      }
      var t, t' := Last(Split(s)), Last(Split(tail));
      var k' := |tail| - |t'|;
      if s[0] == '.' || |Split(tail)| > 1 {
        assert t == t' && |s| - |t| == k' + 1;
        assert s[k' + 1..] == tail[k'..];
        if k' > 0 {
          assert s[k'] == tail[k' - 1];
        }
      } else {
        assert t' == tail;
        assert t == s;
      }
    }
  }

  /** Every character at or after `k` occurs in the suffix `s[k..]`. */
  lemma InSuffix(s: string, k: nat, j: nat)
    requires k <= |s| && j < |s|
    ensures k <= j ==> s[j] in s[k..]
  {
    if k <= j {
      assert s[k..][j - k] == s[j];
    }
  }

  /** A dot-free suffix that starts at the beginning or right after a dot is the last segment. */
  lemma LastSegmentUnique(s: string, k: nat)
    requires k <= |s|
    requires '.' !in s[k..]
    requires k == 0 || s[k - 1] == '.'
    ensures Last(Split(s)) == s[k..]
  {
    var t := Last(Split(s));
    var k0 := |s| - |t|;
    assert k0 <= |s| && s[k0..] == t && (k0 == 0 || s[k0 - 1] == '.') && '.' !in t by {
      LastSegment(s);
      SegmentsDotFree(s);
    }
    if k0 > 0 {
      InSuffix(s, k, k0 - 1);
    }
    if k > 0 {
      InSuffix(s, k0, k - 1);
    }
    assert k == k0;
  }

  lemma LowerDrop(s: string, k: nat)
    requires k <= |s|
    ensures Lower(s)[k..] == Lower(s[k..])
  {
    var a, b := Lower(s)[k..], Lower(s[k..]);
    forall i | 0 <= i < |a| ensures a[i] == b[i] {
      assert a[i] == Lower(s)[k + i] && s[k..][i] == s[k + i];
    }
  }

  lemma LowerOfLowerCase(s: string)
    requires IsLowerCase(s)
    ensures Lower(s) == s
  {
  }

  /**
    `getExtension(src)` is the lower-cased suffix of `src` after its last dot,
    or all of `src` lower-cased when `src` has no dot.
  */
  lemma ExtensionIsLastSegment(src: string)
    ensures |GetExtension(src)| <= |src|
    ensures GetExtension(src) == Lower(src[|src| - |GetExtension(src)|..])
    ensures '.' !in src[|src| - |GetExtension(src)|..]
    ensures |GetExtension(src)| == |src| <==> '.' !in src
    ensures |GetExtension(src)| < |src| ==> src[|src| - |GetExtension(src)| - 1] == '.'
  {
    LastSegment(src);
    var t := Last(Split(src));
    var k := |src| - |t|;
    assert GetExtension(src) == Lower(t) && |Lower(t)| == |t|;
    assert src[k..] == t && '.' !in t;
    if k > 0 {
      assert src[k - 1] == '.';
    } else {
      assert src == t;
    }
  }

  /** The extension has no dot and is lower-case, so inferring it again changes nothing. */
  lemma ExtensionIdempotent(src: string)
    ensures GetExtension(GetExtension(src)) == GetExtension(src)
  {
    var e := GetExtension(src);
    LastSegmentUnique(e, 0);
    LowerOfLowerCase(e);
  }

  /** The extension of `stem.e` is `e` lower-cased, whatever the stem. */
  lemma ExtensionOfName(stem: string, e: string)
    requires '.' !in e
    ensures GetExtension(stem + "." + e) == Lower(e)
  {
    var s := stem + "." + e;
    assert s[|stem| + 1..] == e;
    LastSegmentUnique(s, |stem| + 1);
  }

  /** Sources that differ only in ASCII letter case have the same extension. */
  lemma ExtensionCaseInsensitive(src1: string, src2: string)
    requires Lower(src1) == Lower(src2)
    ensures GetExtension(src1) == GetExtension(src2)
  {
    ExtensionOfLower(src1);
    ExtensionOfLower(src2);
  }

  lemma ExtensionOfLower(src: string)
    ensures GetExtension(Lower(src)) == GetExtension(src)
  {
    var t := Last(Split(src));
    var k := |src| - |t|;
    var ls := Lower(src);
    assert src[k..] == t && '.' !in t && (k == 0 || src[k - 1] == '.') by {
      LastSegment(src);
      SegmentsDotFree(src);
    }
    assert ls[k..] == Lower(t) by {
      LowerDrop(src, k);
    }
    assert k == 0 || ls[k - 1] == '.';
    LastSegmentUnique(ls, k);
    LowerOfLowerCase(Lower(t));
  }
}
