/** The slug normaliser of the `Article` model: a title goes through
      1. `downcase`
      2. `gsub(/[^a-z0-9]/, '-')`
      3. `squeeze('-')`
      4. `gsub(/^\-|\-$/, '')`
    Each stage is one function below; `Slug` composes them. */
module SlugPipeline {
  import opened Ascii

  // ---------------------------------------------------------------------
  // Vocabulary
  // ---------------------------------------------------------------------

  /** `s` with every `-` deleted, the other characters kept in order. */
  function Undashed(s: string): string
  {
    if |s| == 0 then []
    else Undashed(s[..|s| - 1]) + (if s[|s| - 1] == '-' then [] else [s[|s| - 1]])
  }

  /** The ASCII letters and digits of a title, lower-cased, in their order:
      the reference for what a slug must keep. */
  function LowerAlnums(t: string): string
  {
    if |t| == 0 then []
    else LowerAlnums(t[..|t| - 1]) + (if IsAlnum(t[|t| - 1]) then [Downcase(t[|t| - 1])] else [])
  }

  predicate HasAlnum(t: string)
  {
    exists i :: 0 <= i < |t| && IsAlnum(t[i])
  }

  predicate EndsWithDash(s: string)
  {
    |s| > 0 && s[|s| - 1] == '-'
  }

  predicate IsLowerCase(s: string)
  {
    forall i :: 0 <= i < |s| ==> !IsUpper(s[i])
  }

  predicate AllSlugChars(s: string)
  {
    forall i :: 0 <= i < |s| ==> IsSlugChar(s[i])
  }

  /** No two adjacent dashes. Stated over an index pair rather than over
      `s[i - 1]` and `s[i]` so that the solver's trigger `s[i]` cannot keep
      producing `s[i - 1]`, `s[i - 2]`, ... (a matching loop). */
  predicate NoDoubleDash(s: string)
  {
    forall i, j :: 0 <= i < |s| && 0 <= j < |s| && j == i + 1 ==> !(s[i] == '-' && s[j] == '-')
  }

  predicate NoEdgeDash(s: string)
  {
    |s| > 0 ==> s[0] != '-' && s[|s| - 1] != '-'
  }

  /** A well-formed slug: `[a-z0-9-]*`, no `--`, no `-` at either end. */
  predicate IsSlug(s: string)
  {
    AllSlugChars(s) && NoDoubleDash(s) && NoEdgeDash(s)
  }

  // ---------------------------------------------------------------------
  // Stage 1: downcase
  // ---------------------------------------------------------------------

  function Lower(s: string): (r: string)
    ensures |r| == |s|
    ensures IsLowerCase(r)
    ensures forall i :: 0 <= i < |s| ==>
      && (IsUpper(s[i]) ==> r[i] as int - 'a' as int == s[i] as int - 'A' as int)
      && (!IsUpper(s[i]) ==> r[i] == s[i])
    ensures forall i :: 0 <= i < |s| ==> (IsAlnum(s[i]) <==> IsSlugAlnum(r[i]))
    ensures IsLowerCase(s) ==> r == s
  {
    seq(|s|, i requires 0 <= i < |s| => Downcase(s[i]))
  }

  // ---------------------------------------------------------------------
  // Stage 2: gsub(/[^a-z0-9]/, '-')
  // ---------------------------------------------------------------------

  function DashChar(c: char): char
  {
    if IsSlugAlnum(c) then c else '-'
  }

  /** Replaces every character outside `[a-z0-9]` by `-`. The result holds
      no newline, so the anchors `^` and `$` of stage 4 can only match at the
      start and the end of the string. */
  function DashNonAlnum(s: string): (r: string)
    ensures |r| == |s|
    ensures AllSlugChars(r)
    ensures forall i :: 0 <= i < |s| ==> (r[i] == '-' <==> !IsSlugAlnum(s[i]))
    ensures forall i :: 0 <= i < |s| && IsSlugAlnum(s[i]) ==> r[i] == s[i]
    ensures AllSlugChars(s) ==> r == s
  {
    seq(|s|, i requires 0 <= i < |s| => DashChar(s[i]))
  }

  // ---------------------------------------------------------------------
  // Stage 3: squeeze('-')
  // ---------------------------------------------------------------------

  /** One step of the squeeze scan: `c` is kept unless it is `-` and the last
      character kept so far is `-` too. */
  function SqueezeStep(p: string, c: char): string
  {
    if c == '-' && EndsWithDash(p) then p else p + [c]
  }

  /** Collapses every run of `-` into one `-`, scanning left to right. */
  function Squeeze(s: string): (r: string)
    ensures |r| <= |s|
    ensures multiset(r) <= multiset(s)
    ensures NoDoubleDash(r)
    ensures Undashed(r) == Undashed(s)
    ensures |s| > 0 ==> |r| > 0 && r[|r| - 1] == s[|s| - 1]
    ensures AllSlugChars(s) ==> AllSlugChars(r)
    ensures NoDoubleDash(s) ==> r == s
  {
    if |s| == 0 then []
    else
      var init := s[..|s| - 1];
      var c := s[|s| - 1];
      var p := Squeeze(init);
      SplitLast(s);
      SqueezeStepKeepsOutcome(init, c, p);
      SqueezeStep(p, c)
  }

  /** Exactly the ensures of `Squeeze`, bundled into one predicate so that the
      inductive step can be proved once in `SqueezeStepKeepsOutcome`. Keep the
      two in step. */
  predicate SqueezeOutcome(s: string, r: string)
  {
    && |r| <= |s|
    && multiset(r) <= multiset(s)
    && NoDoubleDash(r)
    && Undashed(r) == Undashed(s)
    && (|s| > 0 ==> |r| > 0 && r[|r| - 1] == s[|s| - 1])
    && (AllSlugChars(s) ==> AllSlugChars(r))
    && (NoDoubleDash(s) ==> r == s)
  }

  lemma SqueezeStepKeepsOutcome(init: string, c: char, p: string)
    requires SqueezeOutcome(init, p)
    ensures SqueezeOutcome(init + [c], SqueezeStep(p, c))
  {
    SqueezeStepShape(p, c);
    SqueezeStepContents(init, p, c);
    SqueezeStepUndashed(init, p, c);
    SqueezeStepFixes(init, p, c);
  }

  /** A run of dashes becomes exactly one dash: doubling a dash anywhere in the
      input does not change the result. With `NoDoubleDash(s) ==> r == s` this
      fixes the result of `Squeeze` on every input. */
  lemma {:induction false} SqueezeCollapses(x: string, y: string)
    ensures Squeeze(x + "--" + y) == Squeeze(x + "-" + y)
    decreases |y|
  {
    if |y| == 0 {
      assert x + "--" + y == (x + "-") + ['-'];
      assert x + "-" + y == x + "-";
      SqueezeSnoc(x + "-", '-');
    } else {
      var y' := y[..|y| - 1];
      var c := y[|y| - 1];
      AppendSplit(x + "--", y);
      AppendSplit(x + "-", y);
      SqueezeSnoc(x + "--" + y', c);
      SqueezeSnoc(x + "-" + y', c);
      SqueezeCollapses(x, y');
    }
  }

  /** `Squeeze` is one `SqueezeStep` per input character. */
  lemma SqueezeSnoc(s: string, c: char)
    ensures Squeeze(s + [c]) == SqueezeStep(Squeeze(s), c)
  {
    assert (s + [c])[..|s|] == s;
  }

  lemma AppendSplit(a: string, y: string)
    requires |y| > 0
    ensures a + y == (a + y[..|y| - 1]) + [y[|y| - 1]]
  {
  }

  lemma SplitLast(s: string)
    requires |s| > 0
    ensures s == s[..|s| - 1] + [s[|s| - 1]]
  {
  }

  lemma SqueezeStepShape(p: string, c: char)
    requires NoDoubleDash(p)
    ensures var r := SqueezeStep(p, c);
      |r| <= |p| + 1 && NoDoubleDash(r) && |r| > 0 && r[|r| - 1] == c
  {
  }

  lemma SqueezeStepContents(init: string, p: string, c: char)
    requires multiset(p) <= multiset(init)
    requires AllSlugChars(init) ==> AllSlugChars(p)
    ensures var r := SqueezeStep(p, c);
      && multiset(r) <= multiset(init + [c])
      && (AllSlugChars(init + [c]) ==> AllSlugChars(r))
  {
    if AllSlugChars(init + [c]) {
      assert AllSlugChars(init) by {
        forall i | 0 <= i < |init| ensures IsSlugChar(init[i]) {
          assert (init + [c])[i] == init[i];
        }
      }
      assert IsSlugChar((init + [c])[|init|]);
    }
  }

  lemma SqueezeStepUndashed(init: string, p: string, c: char)
    requires Undashed(p) == Undashed(init)
    ensures Undashed(SqueezeStep(p, c)) == Undashed(init + [c])
  {
    UndashedAppend(init, [c]);
    UndashedAppend(p, [c]);
    assert Undashed([c]) == Undashed([]) + (if c == '-' then [] else [c]);
  }

  lemma SqueezeStepFixes(init: string, p: string, c: char)
    requires NoDoubleDash(init) ==> p == init
    requires |init| > 0 ==> |p| > 0 && p[|p| - 1] == init[|init| - 1]
    ensures NoDoubleDash(init + [c]) ==> SqueezeStep(p, c) == init + [c]
  {
    if NoDoubleDash(init + [c]) {
      assert NoDoubleDash(init) by {
        forall i | 0 < i < |init| ensures !(init[i - 1] == '-' && init[i] == '-') {
          assert (init + [c])[i - 1] == init[i - 1] && (init + [c])[i] == init[i];
        }
      }
      if |init| > 0 {
        assert (init + [c])[|init| - 1] == init[|init| - 1];
        assert (init + [c])[|init|] == c;
      }
    }
  }

  // ---------------------------------------------------------------------
  // Stage 4: gsub(/^\-|\-$/, '')
  // ---------------------------------------------------------------------

  /** The `^\-` alternative: removes one leading dash, if any. */
  function DropLeadingDash(s: string): (r: string)
    ensures if |s| > 0 && s[0] == '-' then s == "-" + r else r == s
  {
    if |s| > 0 && s[0] == '-' then s[1..] else s
  }

  /** The `\-$` alternative: removes one trailing dash, if any. */
  function DropTrailingDash(s: string): (r: string)
    ensures if EndsWithDash(s) then s == r + "-" else r == s
  {
    if EndsWithDash(s) then s[..|s| - 1] else s
  }

  /** Removes at most one `-` at each end. On a string of length one the two
      alternatives of the pattern overlap and the single dash goes once. */
  function StripEdgeDashes(s: string): (r: string)
    ensures var k := if |s| > 0 && s[0] == '-' then 1 else 0;
      var m := if |s| > k && s[|s| - 1] == '-' then 1 else 0;
      r == s[k..|s| - m]
    ensures |s| - 2 <= |r| <= |s|
    ensures multiset(r) <= multiset(s)
    ensures Undashed(r) == Undashed(s)
    ensures NoEdgeDash(s) ==> r == s
    ensures AllSlugChars(s) ==> AllSlugChars(r)
    ensures NoDoubleDash(s) ==> NoDoubleDash(r) && NoEdgeDash(r)
  {
    var x := DropLeadingDash(s);
    var r := DropTrailingDash(x);
    var pre := if |s| > 0 && s[0] == '-' then "-" else "";
    var post := if EndsWithDash(x) then "-" else "";
    TrimmedSlice(s, x, r, pre, post);
    TrimmedContents(s, pre, r, post);
    TrimmedShape(s, x, r);
    r
  }

  /** The two alternatives together cut the slice between an optional
      leading and an optional trailing dash. */
  lemma TrimmedSlice(s: string, x: string, r: string, pre: string, post: string)
    requires x == DropLeadingDash(s) && r == DropTrailingDash(x)
    requires pre == (if |s| > 0 && s[0] == '-' then "-" else "")
    requires post == (if EndsWithDash(x) then "-" else "")
    ensures s == pre + r + post
    ensures var k := if |s| > 0 && s[0] == '-' then 1 else 0;
      var m := if |s| > k && s[|s| - 1] == '-' then 1 else 0;
      r == s[k..|s| - m]
  {
  }

  /** Cutting at most a dash off each end keeps what matters. */
  lemma TrimmedContents(s: string, pre: string, r: string, post: string)
    requires s == pre + r + post
    requires pre == "" || pre == "-"
    requires post == "" || post == "-"
    ensures multiset(r) <= multiset(s)
    ensures Undashed(r) == Undashed(s)
    ensures AllSlugChars(s) ==> AllSlugChars(r)
  {
    TrimmedUndashed(pre, r, post);
    if AllSlugChars(s) {
      TrimmedSlugChars(s, |pre|, r);
    }
  }

  lemma TrimmedUndashed(pre: string, r: string, post: string)
    requires pre == "" || pre == "-"
    requires post == "" || post == "-"
    ensures Undashed(pre + r + post) == Undashed(r)
  {
    UndashedAppend(pre, r);
    UndashedAppend(pre + r, post);
    assert Undashed("-") == Undashed("") + [];
  }

  lemma TrimmedSlugChars(s: string, k: nat, r: string)
    requires k + |r| <= |s| && r == s[k..k + |r|]
    requires AllSlugChars(s)
    ensures AllSlugChars(r)
  {
    forall i | 0 <= i < |r| ensures IsSlugChar(r[i]) {
      assert r[i] == s[k + i];
    }
  }

  lemma TrimmedShape(s: string, x: string, r: string)
    requires x == DropLeadingDash(s)
    requires r == DropTrailingDash(x)
    ensures NoDoubleDash(s) ==> NoDoubleDash(r) && NoEdgeDash(r)
  {
    if NoDoubleDash(s) {
      StripKeepsNoDoubleDash(s);
      assert NoDoubleDash(x);
      if EndsWithDash(x) && |r| > 0 {
        assert x[|x| - 1] == '-' && r[|r| - 1] == x[|x| - 2];
      }
    }
  }

  lemma StripKeepsNoDoubleDash(s: string)
    requires NoDoubleDash(s)
    ensures NoDoubleDash(DropLeadingDash(s))
    ensures var x := DropLeadingDash(s); |x| > 0 ==> x[0] != '-'
  {
  }

  // ---------------------------------------------------------------------
  // The pipeline
  // ---------------------------------------------------------------------

  /** Stages 1 to 3. */
  function Squeezed(t: string): string
  {
    Squeeze(DashNonAlnum(Lower(t)))
  }

  /** The slug generated from a title. */
  function Slug(t: string): (r: string)
    ensures IsSlug(r)
    ensures Undashed(r) == LowerAlnums(t)
    ensures |r| <= |t|
    ensures r == [] <==> !HasAlnum(t)
  {
    var r := StripEdgeDashes(Squeezed(t));
    UndashedOfDashed(t);
    UndashedEmpty(r);
    LowerAlnumsEmpty(t);
    r
  }

  // ---------------------------------------------------------------------
  // Helper lemmas
  // ---------------------------------------------------------------------

  lemma {:induction false} UndashedAppend(a: string, b: string)
    ensures Undashed(a + b) == Undashed(a) + Undashed(b)
    decreases |b|
  {
    if |b| == 0 {
      assert a + b == a;
    } else {
      var b' := b[..|b| - 1];
      assert (a + b)[..|a + b| - 1] == a + b';
      UndashedAppend(a, b');
    }
  }

  /** A string whose dashes are all there is consists of dashes only. */
  lemma {:induction false} UndashedEmpty(s: string)
    ensures Undashed(s) == [] <==> forall i :: 0 <= i < |s| ==> s[i] == '-'
  {
    if |s| > 0 {
      UndashedEmpty(s[..|s| - 1]);
    }
  }

  lemma {:induction false} LowerAlnumsEmpty(t: string)
    ensures LowerAlnums(t) == [] <==> !HasAlnum(t)
  {
    if |t| > 0 {
      var t' := t[..|t| - 1];
      LowerAlnumsEmpty(t');
      if HasAlnum(t') {
        var i :| 0 <= i < |t'| && IsAlnum(t'[i]);
        assert IsAlnum(t[i]);
      }
      if HasAlnum(t) && !IsAlnum(t[|t| - 1]) {
        var i :| 0 <= i < |t| && IsAlnum(t[i]);
        assert IsAlnum(t'[i]);
      }
    }
  }

  /** Stages 1 and 2 extend with the title one character at a time. */
  lemma DashedSnoc(t: string, c: char)
    ensures DashNonAlnum(Lower(t + [c])) == DashNonAlnum(Lower(t)) + [DashChar(Downcase(c))]
  {
  }

  /** Stages 1 and 2 keep exactly the title's letters and digits, lower-cased. */
  lemma {:induction false} UndashedOfDashed(t: string)
    ensures Undashed(DashNonAlnum(Lower(t))) == LowerAlnums(t)
  {
    if |t| > 0 {
      var t' := t[..|t| - 1];
      var c := t[|t| - 1];
      assert t == t' + [c];
      DashedSnoc(t', c);
      var d := DashNonAlnum(Lower(t));
      assert d[..|d| - 1] == DashNonAlnum(Lower(t'));
      UndashedOfDashed(t');
    }
  }
}
