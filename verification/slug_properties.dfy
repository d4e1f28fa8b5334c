/** Properties of the slug normaliser that relate several calls, and an
    independent one-pass definition of the same function. */
module SlugProperties {
  import opened Ascii
  import opened SlugPipeline

  // ---------------------------------------------------------------------
  // Case, idempotence, fixed points
  // ---------------------------------------------------------------------

  /** Titles that differ only in the case of their letters get the same slug. */
  lemma SlugIgnoresCase(t: string)
    ensures Slug(Lower(t)) == Slug(t)
  {
    assert Lower(Lower(t)) == Lower(t);
  }

  lemma SlugCharsAreLowerCase(s: string)
    requires AllSlugChars(s)
    ensures IsLowerCase(s)
  {
  }

  /** The strings the normaliser leaves unchanged are exactly the well-formed
      slugs. */
  lemma SlugFixedPoints(s: string)
    ensures Slug(s) == s <==> IsSlug(s)
  {
    if IsSlug(s) {
      SlugCharsAreLowerCase(s);
      assert Lower(s) == s;
      assert DashNonAlnum(s) == s;
      assert Squeeze(s) == s;
    }
  }

  /** Normalising a slug again changes nothing. */
  lemma SlugIdempotent(t: string)
    ensures Slug(Slug(t)) == Slug(t)
  {
    SlugFixedPoints(Slug(t));
  }

  // ---------------------------------------------------------------------
  // A one-pass reference definition
  // ---------------------------------------------------------------------

  /** State of a single left-to-right pass: the slug built so far, and whether
      a separator has been seen since the last letter or digit. */
  datatype ScanState = ScanState(out: string, pendingDash: bool)

  /** A letter or digit is appended, preceded by one `-` when a separator was
      seen and something has been written already; anything else only marks
      that a separator was seen. */
  function ScanStep(st: ScanState, c: char): ScanState
  {
    var d := Downcase(c);
    if IsSlugAlnum(d) then
      ScanState(st.out + (if st.pendingDash && |st.out| > 0 then "-" else "") + [d], false)
    else
      ScanState(st.out, true)
  }

  function Scan(t: string): ScanState
  {
    if |t| == 0 then ScanState([], false)
    else ScanStep(Scan(t[..|t| - 1]), t[|t| - 1])
  }

  function SlugByScan(t: string): string
  {
    Scan(t).out
  }

  /** The four-stage pipeline and the one-pass scan compute the same slug. */
  lemma SlugByScanAgrees(t: string)
    ensures SlugByScan(t) == Slug(t)
  {
    ScanTracksPipeline(t);
  }

  /** After any prefix of the title, the scan's output is what stage 4 makes of
      the squeezed prefix, and a separator is pending exactly when the squeezed
      prefix ends with `-`. */
  lemma {:induction false} ScanTracksPipeline(t: string)
    ensures Scan(t) == ScanState(StripEdgeDashes(Squeezed(t)), EndsWithDash(Squeezed(t)))
  {
    if |t| > 0 {
      var t' := t[..|t| - 1];
      var c := t[|t| - 1];
      assert t == t' + [c];
      ScanTracksPipeline(t');
      SqueezedSnoc(t', c);
      var d := Downcase(c);
      if IsSlugAlnum(d) {
        StepTracksLetter(Squeezed(t'), Scan(t'), d);
      } else {
        StepTracksSeparator(Squeezed(t'), Scan(t'));
      }
    }
  }

  /** One scan step on a letter or digit `d` matches one squeeze step. */
  lemma StepTracksLetter(s: string, st: ScanState, d: char)
    requires NoDoubleDash(s)
    requires st == ScanState(StripEdgeDashes(s), EndsWithDash(s))
    requires IsSlugAlnum(d)
    ensures var s1 := SqueezeStep(s, d);
      ScanState(st.out + (if st.pendingDash && |st.out| > 0 then "-" else "") + [d], false)
      == ScanState(StripEdgeDashes(s1), EndsWithDash(s1))
  {
    var x := DropLeadingDash(s);
    DropLeadingSnoc(s, d);
    assert StripEdgeDashes(s + [d]) == x + [d];
    PendingSeparator(s);
  }

  /** What stage 4 cut off the end of a squeezed string is exactly the
      separator the scan still owes, unless nothing has been written yet. */
  lemma PendingSeparator(s: string)
    requires NoDoubleDash(s)
    ensures var x := DropLeadingDash(s);
      var out := DropTrailingDash(x);
      out + (if EndsWithDash(s) && |out| > 0 then "-" else "") == x
  {
    var x := DropLeadingDash(s);
    SuffixKeepsLast(s);
    if EndsWithDash(s) && |x| > 0 {
      StripKeepsNoDoubleDash(s);
      assert x[0] != '-';
      assert x == DropTrailingDash(x) + "-";
    }
  }

  /** One scan step on any other character matches one squeeze step of `-`. */
  lemma StepTracksSeparator(s: string, st: ScanState)
    requires st == ScanState(StripEdgeDashes(s), EndsWithDash(s))
    ensures var s1 := SqueezeStep(s, '-');
      ScanState(st.out, true) == ScanState(StripEdgeDashes(s1), EndsWithDash(s1))
  {
    if !EndsWithDash(s) && |s| > 0 {
      SuffixKeepsLast(s);
      DropLeadingSnoc(s, '-');
    }
  }

  /** Stages 1 to 3 extend with the title one squeeze step at a time. */
  lemma SqueezedSnoc(t: string, c: char)
    ensures Squeezed(t + [c]) == SqueezeStep(Squeezed(t), DashChar(Downcase(c)))
  {
    var dt := DashNonAlnum(Lower(t));
    var e := DashChar(Downcase(c));
    DashedSnoc(t, c);
    assert (dt + [e])[..|dt|] == dt;
  }

  lemma DropLeadingSnoc(s: string, e: char)
    requires e != '-' || |s| > 0
    ensures DropLeadingDash(s + [e]) == DropLeadingDash(s) + [e]
  {
    if |s| > 0 && s[0] == '-' {
      assert (s + [e])[1..] == s[1..] + [e];
    }
  }

  /** Removing a leading dash does not change the last character. */
  lemma SuffixKeepsLast(s: string)
    ensures var x := DropLeadingDash(s); |x| > 0 ==> x[|x| - 1] == s[|s| - 1]
  {
  }
}
