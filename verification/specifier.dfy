/**
 Normalisation of a dependency specifier: `gsub(/^[^\d]+/, '')`, which removes a leading run of
 non-digits (a comparison operator such as `>=`) so that only the bare version number is left.

 `^` is Ruby's start-of-line anchor, so `gsub` removes such a run at the start of EVERY line, and the
 run itself may span line breaks. `StripFrom` follows that scan exactly.
 */
module Specifier {
  import opened Text

  predicate NonDigit(c: char)
  {
    !IsDigit(c)
  }

  /** The result of the global substitution on the part of `s` from position `p` on. */
  function StripFrom(s: string, p: nat): string
    requires p <= |s|
    decreases |s| - p
  {
    if p == |s| then []
    else if LineStart(s, p) && NonDigit(s[p]) then StripFrom(s, RunEnd(s, p, NonDigit))
    else [s[p]] + StripFrom(s, p + 1)
  }

  /** Every line of `t` that has a first character starts with a digit. */
  ghost predicate Clean(t: string)
  {
    forall i :: 0 <= i < |t| && LineStart(t, i) ==> IsDigit(t[i])
  }

  /** The substitution leaves the digit-led lines of its output alone, whatever came before. */
  lemma {:induction false} StripFromClean(s: string, p: nat)
    requires p <= |s|
    ensures var r := StripFrom(s, p);
      && (forall i :: 0 < i < |r| && r[i - 1] == '\n' ==> IsDigit(r[i]))
      && (LineStart(s, p) && r != [] ==> IsDigit(r[0]))
      && (p < |s| && IsDigit(s[p]) ==> r != [] && r[0] == s[p])
    decreases |s| - p
  {
    if p < |s| {
      if LineStart(s, p) && NonDigit(s[p]) {
        StripFromClean(s, RunEnd(s, p, NonDigit));
      } else {
        StripFromClean(s, p + 1);
        var r := StripFrom(s, p);
        var rest := StripFrom(s, p + 1);
        assert r == [s[p]] + rest;
        forall i | 0 < i < |r| && r[i - 1] == '\n' ensures IsDigit(r[i]) {
          if i == 1 {
            assert s[p] == '\n';
            assert LineStart(s, p + 1);
          } else {
            assert r[i - 1] == rest[i - 2] && r[i] == rest[i - 1];
          }
        }
      }
    }
  }

  /** Where every line start from `p` on is already a digit, the substitution changes nothing. */
  lemma {:induction false} StripFromIdentity(s: string, p: nat)
    requires p <= |s|
    requires forall k :: p <= k < |s| && LineStart(s, k) ==> IsDigit(s[k])
    ensures StripFrom(s, p) == s[p..]
    decreases |s| - p
  {
    if p < |s| {
      StripFromIdentity(s, p + 1);
      assert s[p..] == [s[p]] + s[p + 1..];
    }
  }

  /**
   The specifier with the substitution applied. The result is clean (empty, or every line led by a
   digit); a single-line specifier loses exactly its leading run of non-digits, so the result is a
   suffix of it, and a single-line specifier that already starts with a digit is left unchanged.
   */
  function Normalize(spec: string): (r: string)
    ensures Clean(r)
    ensures r == [] || IsDigit(r[0])
    ensures '\n' !in spec ==> r == spec[RunEnd(spec, 0, NonDigit)..]
    ensures '\n' !in spec && |spec| > 0 && IsDigit(spec[0]) ==> r == spec
  {
    StripFromClean(spec, 0);
    StripFromOneLine(spec);
    StripFrom(spec, 0)
  }

  lemma StripFromOneLine(spec: string)
    ensures '\n' !in spec ==> StripFrom(spec, 0) == spec[RunEnd(spec, 0, NonDigit)..]
  {
    if '\n' !in spec {
      var q := RunEnd(spec, 0, NonDigit);
      forall k | 0 < k < |spec| ensures !LineStart(spec, k) {
        assert spec[k - 1] in spec;
      }
      if 0 < |spec| && IsDigit(spec[0]) {
        StripFromIdentity(spec, 0);
      } else {
        StripFromIdentity(spec, q);
      }
    }
  }

  /** Applying the normalisation twice is the same as applying it once. */
  lemma NormalizeIdempotent(spec: string)
    ensures Normalize(Normalize(spec)) == Normalize(spec)
  {
    StripFromIdentity(Normalize(spec), 0);
  }

  /** The specifiers the normalisation leaves unchanged are exactly the clean ones. */
  lemma NormalizeFixedPoints(spec: string)
    ensures Normalize(spec) == spec <==> Clean(spec)
  {
    if Clean(spec) {
      StripFromIdentity(spec, 0);
    }
  }

  /** A range operator is stripped down to the bare number. */
  lemma NormalizeStripsOperator()
    ensures Normalize(">=1.2.0") == "1.2.0"
  {
    var s := ">=1.2.0";
    assert RunEnd(s, 0, NonDigit) == 2 by {
      RunEndIsUnique(s, 0, 2, NonDigit);
    }
  }

  /** On a multi-line specifier the result need not be a suffix: every line is stripped. */
  lemma MultiLineNotSuffix()
    ensures Normalize("1\nx2") == "1\n2"
  {
    var s := "1\nx2";
    assert RunEnd(s, 2, NonDigit) == 3 by {
      RunEndIsUnique(s, 2, 3, NonDigit);
    }
    assert StripFrom(s, 2) == "2";
  }
}
