/**
 The version-number format check: the pattern `\d+\.\d+\.\d+(-[a-z0-9.]+)?`, case-insensitive.

 `IsVersionNumber` matches the pattern against the whole string; `InGrammar` is an independent,
 declarative statement of the same language, and `VersionNumberGrammar` proves the two agree.
 `MatchesLineAnchored` is the check as the Ruby code writes it, with `^` and `$` line anchors, which
 also accepts a multi-line string as soon as one of its lines is a version number.
 */
module NumberFormat {
  import opened Text

  /** A character of the pre-release suffix: `[a-z0-9.]` under the case-insensitive flag. */
  predicate IsPrereleaseChar(c: char)
  {
    IsDigit(c) || 'a' <= c <= 'z' || 'A' <= c <= 'Z' || c == '.'
  }

  /** The optional `-...` suffix that follows the third number, starting at `c`. */
  predicate IsPrereleaseFrom(s: string, c: nat)
    requires c <= |s|
  {
    c == |s| || (s[c] == '-' && c + 1 < |s| && forall k :: c < k < |s| ==> IsPrereleaseChar(s[k]))
  }

  /** The whole of `s` is `major.minor.patch`, optionally followed by `-` and a pre-release tag. */
  predicate IsVersionNumber(s: string)
  {
    var a := RunEnd(s, 0, IsDigit);
    0 < a < |s| && s[a] == '.' &&
    var b := RunEnd(s, a + 1, IsDigit);
    a + 1 < b < |s| && s[b] == '.' &&
    var c := RunEnd(s, b + 1, IsDigit);
    b + 1 < c && IsPrereleaseFrom(s, c)
  }

  /** One or more digits. */
  ghost predicate Numeric(a: string)
  {
    |a| > 0 && forall k :: 0 <= k < |a| ==> IsDigit(a[k])
  }

  /** Empty, or `-` followed by one or more pre-release characters. */
  ghost predicate Prerelease(p: string)
  {
    p == [] || (|p| >= 2 && p[0] == '-' && forall k :: 1 <= k < |p| ==> IsPrereleaseChar(p[k]))
  }

  /** The language of the pattern, stated as a decomposition of the string. */
  ghost predicate InGrammar(s: string)
  {
    exists a, b, c, p :: Numeric(a) && Numeric(b) && Numeric(c) && Prerelease(p) && s == a + "." + b + "." + c + p
  }

  /** The recogniser accepts exactly the strings of the grammar. */
  lemma VersionNumberGrammar(s: string)
    ensures IsVersionNumber(s) <==> InGrammar(s)
  {
    if IsVersionNumber(s) {
      var a := RunEnd(s, 0, IsDigit);
      var b := RunEnd(s, a + 1, IsDigit);
      var c := RunEnd(s, b + 1, IsDigit);
      var x, y, z, p := s[..a], s[a + 1..b], s[b + 1..c], s[c..];
      assert Numeric(x) && Numeric(y) && Numeric(z);
      assert Prerelease(p);
      Decompose(s, a, b, c);
    }
    if InGrammar(s) {
      var x, y, z, p :| Numeric(x) && Numeric(y) && Numeric(z) && Prerelease(p) && s == x + "." + y + "." + z + p;
      GrammarIsRecognised(s, x, y, z, p);
    }
  }

  /** Cutting a string at two dots and one further position and gluing the pieces back gives the string. */
  lemma Decompose(s: string, a: nat, b: nat, c: nat)
    requires a < b < c <= |s| && s[a] == '.' && s[b] == '.'
    ensures s == s[..a] + "." + s[a + 1..b] + "." + s[b + 1..c] + s[c..]
  {
    assert s[..b] == s[..a] + "." + s[a + 1..b];
    assert s[..c] == s[..b] + "." + s[b + 1..c];
    assert s == s[..c] + s[c..];
  }

  /** A string built from the grammar's pieces is accepted, with the runs ending where the pieces do. */
  lemma GrammarIsRecognised(s: string, x: string, y: string, z: string, p: string)
    requires Numeric(x) && Numeric(y) && Numeric(z) && Prerelease(p)
    requires s == x + "." + y + "." + z + p
    ensures IsVersionNumber(s)
  {
    var a := |x|;
    var b := a + 1 + |y|;
    var c := b + 1 + |z|;
    assert s[a] == '.';
    assert s[b] == '.';
    forall k | 0 <= k < a ensures IsDigit(s[k]) {
      assert s[k] == x[k];
    }
    RunEndIsUnique(s, 0, a, IsDigit);
    forall k | a + 1 <= k < b ensures IsDigit(s[k]) {
      assert s[k] == y[k - a - 1];
    }
    RunEndIsUnique(s, a + 1, b, IsDigit);
    forall k | b + 1 <= k < c ensures IsDigit(s[k]) {
      assert s[k] == z[k - b - 1];
    }
    assert s[c..] == p;
    if p != [] {
      assert s[c] == '-';
      forall k | c < k < |s| ensures IsPrereleaseChar(s[k]) {
        assert s[k] == p[k - c];
      }
    }
    RunEndIsUnique(s, b + 1, c, IsDigit);
  }

  /**
   The check as written: Ruby's `^` matches at the start of any line and `$` at the end of any line,
   so the pattern is satisfied when SOME line of the string is a version number.
   */
  predicate MatchesLineAnchored(s: string)
  {
    exists i, j | 0 <= i <= j <= |s| :: LineStart(s, i) && LineEnd(s, j) && IsVersionNumber(s[i..j])
  }

  /** On a single-line string the anchored check and the whole-string check agree. */
  lemma SingleLineAnchoring(s: string)
    requires '\n' !in s
    ensures MatchesLineAnchored(s) <==> IsVersionNumber(s)
  {
    if MatchesLineAnchored(s) {
      var i, j :| 0 <= i <= j <= |s| && LineStart(s, i) && LineEnd(s, j) && IsVersionNumber(s[i..j]);
      assert s[i..j] == s;
    }
    if IsVersionNumber(s) {
      assert s[0..|s|] == s;
      assert LineStart(s, 0) && LineEnd(s, |s|);
    }
  }

  /** The line anchors let a number through whose first line is not a version number at all. */
  lemma MultiLineNumberAccepted()
    ensures MatchesLineAnchored("x\n1.0.0")
    ensures !IsVersionNumber("x\n1.0.0")
  {
    var s := "x\n1.0.0";
    GrammarIsRecognised(s[2..7], "1", "0", "0", "");
    assert LineStart(s, 2) && LineEnd(s, 7);
    assert RunEnd(s, 0, IsDigit) == 0;
  }
}
