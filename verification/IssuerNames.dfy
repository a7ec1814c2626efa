/** Issuer domain names, character by character. */
module IssuerNames {
  import opened Common
  import opened Text
  import opened Splitting
  import opened DnsPersist

  /** Letters, digits and hyphens, in runs between dots; no run begins or ends with a hyphen. */
  predicate Spelled(name: string) {
    && name != ""
    && (forall i :: 0 <= i < |name| ==> IsLetterOrDigit(name[i]) || name[i] == '-' || name[i] == '.')
    && IsLetterOrDigit(name[0]) && IsLetterOrDigit(name[|name| - 1])
    && (forall i :: 0 <= i < |name| - 1 && name[i] == '.' ==> IsLetterOrDigit(name[i + 1]))
    && (forall i :: 1 <= i < |name| && name[i] == '.' ==> IsLetterOrDigit(name[i - 1]))
  }

  ghost predicate DotWithin(name: string, i: nat, n: nat) {
    exists k :: i <= k < i + n && k < |name| && name[k] == '.'
  }

  /** Any 64 characters in a row hold a dot. */
  ghost predicate ShortRuns(name: string) {
    forall i: nat | i + 64 <= |name| :: DotWithin(name, i, 64)
  }

  ghost predicate Labels(name: string) {
    forall k :: 0 <= k < |Split(name, '.')| ==> IsLabel(Split(name, '.')[k])
  }

  lemma LabelIsSpelled(name: string)
    requires Without(name, '.')
    ensures IsLabel(name) <==> Spelled(name) && ShortRuns(name)
  {
    if |name| >= 64 {
      var i: nat := 0;
      assert !DotWithin(name, i, 64);
    }
  }

  lemma SpelledParts(a: string, b: string)
    requires Without(a, '.')
    ensures Spelled(a + (['.'] + b)) <==> Spelled(a) && Spelled(b)
  {
    var name := a + (['.'] + b);
    hide IsLetterOrDigit;
    DotIsNoLetter();
    assert name[|a|] == '.';
    if Spelled(name) {
      assert forall i :: 0 <= i < |a| ==> name[i] == a[i];
      assert forall i :: 0 <= i < |b| ==> b[i] == name[|a| + 1 + i];
      SpelledFront(a, b, name);
      SpelledBack(a, b, name);
    } else if Spelled(a) && Spelled(b) {
      SpelledWhole(a, b, name);
    }
  }

  lemma DotIsNoLetter()
    ensures !IsLetterOrDigit('.')
  {
  }

  lemma SpelledFront(a: string, b: string, name: string)
    requires name == a + (['.'] + b) && Spelled(name) && Without(a, '.')
    ensures Spelled(a)
  {
    DotIsNoLetter();
    hide IsLetterOrDigit;
    var n := |a|;
    assert name[n] == '.';
    assert n >= 1;
    assert forall i :: 0 <= i < |a| ==> name[i] == a[i];
    assert IsLetterOrDigit(name[n - 1]);
  }

  lemma SpelledBack(a: string, b: string, name: string)
    requires name == a + (['.'] + b) && Spelled(name)
    ensures Spelled(b)
  {
    DotIsNoLetter();
    hide IsLetterOrDigit;
    var n := |a|;
    assert name[n] == '.' && b != "";
    assert forall i :: 0 <= i < |b| ==> b[i] == name[n + 1 + i];
    assert IsLetterOrDigit(name[n + 1]);
    forall i | 0 <= i < |b| - 1 && b[i] == '.'
      ensures IsLetterOrDigit(b[i + 1])
    {
      assert name[n + 1 + i] == '.' && IsLetterOrDigit(name[n + 1 + i + 1]);
    }
    forall i | 1 <= i < |b| && b[i] == '.'
      ensures IsLetterOrDigit(b[i - 1])
    {
      assert name[n + 1 + i] == '.' && IsLetterOrDigit(name[n + 1 + i - 1]);
    }
  }

  lemma SpelledWhole(a: string, b: string, name: string)
    requires name == a + (['.'] + b) && Spelled(a) && Spelled(b) && Without(a, '.')
    ensures Spelled(name)
  {
    hide IsLetterOrDigit;
    var n := |a|;
    assert name[0] == a[0] && name[|name| - 1] == b[|b| - 1] && name[n - 1] == a[n - 1] && name[n + 1] == b[0];
    forall i | 0 <= i < |name|
      ensures IsLetterOrDigit(name[i]) || name[i] == '-' || name[i] == '.'
      ensures i < |name| - 1 && name[i] == '.' ==> IsLetterOrDigit(name[i + 1])
      ensures 1 <= i && name[i] == '.' ==> IsLetterOrDigit(name[i - 1])
    {
      if i < n {
        assert name[i] == a[i];
      } else if i > n {
        assert name[i] == b[i - n - 1];
        if i < |name| - 1 && name[i] == '.' {
          assert name[i + 1] == b[i - n - 1 + 1];
        }
        if name[i] == '.' && i > n + 1 {
          assert name[i - 1] == b[i - n - 1 - 1];
        }
      }
    }
  }

  lemma RunParts(a: string, b: string)
    requires Without(a, '.')
    ensures ShortRuns(a + (['.'] + b)) <==> |a| <= 63 && ShortRuns(b)
  {
    var name := a + (['.'] + b);
    if |a| >= 64 {
      RunFront(a, b, name);
    } else if ShortRuns(name) {
      forall i: nat | i + 64 <= |b|
        ensures DotWithin(b, i, 64)
      {
        WindowShifts(a, b, name, i);
      }
    } else if ShortRuns(b) {
      forall i: nat | i + 64 <= |name|
        ensures DotWithin(name, i, 64)
      {
        if i <= |a| {
          assert name[|a|] == '.';
        } else {
          WindowShifts(a, b, name, i - |a| - 1);
        }
      }
    }
  }

  lemma RunFront(a: string, b: string, name: string)
    requires name == a + (['.'] + b) && Without(a, '.') && |a| >= 64
    ensures !ShortRuns(name)
  {
    var i: nat := 0;
    assert forall k :: 0 <= k < 64 ==> name[k] == a[k];
    assert !DotWithin(name, i, 64);
  }

  lemma WindowShifts(a: string, b: string, name: string, i: nat)
    requires name == a + (['.'] + b)
    requires i + 64 <= |b|
    ensures DotWithin(b, i, 64) <==> DotWithin(name, |a| + 1 + i, 64)
  {
    var n := |a| + 1;
    assert forall k :: 0 <= k < |b| ==> b[k] == name[n + k];
    if DotWithin(name, n + i, 64) {
      var k :| n + i <= k < n + i + 64 && k < |name| && name[k] == '.';
      assert b[k - n] == '.';
    }
  }

  lemma {:induction false} LabelsAreSpelled(name: string)
    ensures Labels(name) <==> Spelled(name) && ShortRuns(name)
    decreases |name|
  {
    hide IsLabel, Spelled, ShortRuns, Split;
    match SplitOnce(name, '.') {
      case None =>
        SplitLast(name, '.');
        LabelIsSpelled(name);
        assert Split(name, '.')[0] == name;
      case Some((a, b)) =>
        SplitFirst(a, b, '.');
        LabelsAreSpelled(b);
        LabelsParts(name, a, b);
        LabelIsSpelled(a);
        RunOf(a);
        SpelledParts(a, b);
        RunParts(a, b);
    }
  }

  lemma RunOf(a: string)
    requires Without(a, '.')
    ensures ShortRuns(a) <==> |a| <= 63
  {
    if |a| >= 64 {
      var i: nat := 0;
      assert !DotWithin(a, i, 64);
    }
  }

  lemma LabelsParts(name: string, a: string, b: string)
    requires Split(name, '.') == [a] + Split(b, '.')
    ensures Labels(name) <==> IsLabel(a) && Labels(b)
  {
    hide Split, IsLabel;
    var parts, rest := Split(name, '.'), Split(b, '.');
    assert parts[0] == a && forall k :: 0 <= k < |rest| ==> rest[k] == parts[k + 1];
    assert forall k :: 1 <= k < |parts| ==> parts[k] == rest[k - 1];
  }

  /** The names that resolve, by their characters. */
  lemma IssuerNameIs(name: string)
    ensures IsIssuerName(name) <==> Spelled(name) && ShortRuns(name) && |name| <= 253
  {
    hide IsLabel, Split, ShortRuns;
    LabelsAreSpelled(name);
  }

  // ----- resolving -----

  predicate Whitespace(s: string) {
    forall i :: 0 <= i < |s| ==> IsSpace(s[i])
  }

  lemma {:induction false} TrimsFront(a: string, s: string)
    requires Whitespace(a) && (s != "" ==> !IsSpace(s[0]))
    ensures TrimStart(a + s) == s
    decreases |a|
  {
    hide IsSpace;
    if a == "" {
      assert a + s == s;
    } else {
      assert (a + s)[1..] == a[1..] + s;
      TrimsFront(a[1..], s);
    }
  }

  lemma {:induction false} TrimsBack(s: string, b: string)
    requires Whitespace(b) && (s != "" ==> !IsSpace(s[|s| - 1]))
    ensures TrimEnd(s + b) == s
    decreases |b|
  {
    hide IsSpace;
    if b == "" {
      assert s + b == s;
    } else {
      assert (s + b)[..|s + b| - 1] == s + b[..|b| - 1];
      TrimsBack(s, b[..|b| - 1]);
    }
  }

  /** Nothing configured means Let's Encrypt. */
  lemma DefaultIssuer(a: string)
    requires Whitespace(a)
    ensures ResolveSpec(a) == Ok("letsencrypt.org")
  {
    hide TrimStart, TrimEnd, TrimDots, IsIssuerName, IsSpace;
    assert a + "" == a && "" + "" == "";
    TrimsFront(a, "");
    TrimsBack("", "");
  }

  /** A name that neither begins nor ends with white space or a dot, with white space around it and
      dots behind it, resolves to itself when it is an issuer name, and is refused otherwise. */
  lemma ResolvesExactly(a: string, name: string, dots: string, b: string)
    requires Whitespace(a) && Dots(dots) && Whitespace(b)
    requires name != "" && !IsSpace(name[0]) && !IsSpace(name[|name| - 1]) && name[|name| - 1] != '.'
    ensures ResolveSpec(a + ((name + dots) + b))
            == if Spelled(name) && ShortRuns(name) && |name| <= 253 then Ok(name) else Err
  {
    var core := name + dots;
    IssuerNameIs(name);
    EndsWithDot(name, dots);
    hide IsIssuerName, Spelled, ShortRuns, TrimStart, TrimEnd, TrimDots, IsSpace, Whitespace, Dots;
    TrimsFront(a, core + b);
    TrimsBack(core, b);
    TrimsDots(name, dots);
  }

  lemma EndsWithDot(name: string, dots: string)
    requires name != "" && !IsSpace(name[|name| - 1]) && Dots(dots)
    ensures !IsSpace((name + dots)[|name + dots| - 1])
  {
    var core := name + dots;
    if dots != "" {
      assert core[|core| - 1] == '.';
    }
  }

  // ----- comparing issuers -----

  /** Two issuers are the same one exactly when they agree up to the case of their letters and their
      trailing dots. */
  lemma IssuersMatch(lower: Lowering, a: string, dotsA: string, b: string, dotsB: string)
    requires LowersAscii(lower) && Ascii(a) && Ascii(b) && Dots(dotsA) && Dots(dotsB)
    requires (a != "" ==> a[|a| - 1] != '.') && (b != "" ==> b[|b| - 1] != '.')
    ensures NormalizedIssuer(lower, a + dotsA) == NormalizedIssuer(lower, b + dotsB)
            <==> SameLetters(a, b)
  {
    hide TrimDots, Lower, SameLetters;
    TrimsDots(a, dotsA);
    TrimsDots(b, dotsB);
    SameFolds(a, b);
  }
}
