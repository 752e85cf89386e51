/** The legality classifier: decides whether one trimmed text value is safe for
    internationalisation (no ASCII letters, or only placeholder text once punctuation
    and non-breaking-space markers are peeled away). */
module Classifier {
  import opened Text

  /** The non-breaking-space marker the templates use; it is five characters long. */
  const Marker: string := "$[SP]"

  /** `str.substring(0, 5) === '$[SP]'`. */
  predicate StartsWithMarker(s: string) {
    |s| >= 5 && s[..5] == Marker
  }

  /** `str.substring(str.length - 5, str.length) === '$[SP]'` (a negative start clamps to 0,
      so a string shorter than five characters never matches). */
  predicate EndsWithMarker(s: string) {
    |s| >= 5 && s[|s| - 5..] == Marker
  }

  /** First two characters `{{` and last two `}}`: a whole mustache placeholder. */
  predicate BraceWrapped(s: string) {
    CharIs(s, 0, '{') && CharIs(s, 1, '{') && CharIs(s, |s| - 1, '}') && CharIs(s, |s| - 2, '}')
  }

  /** The string opens a `${` interpolation. */
  predicate OpensInterpolation(s: string) {
    CharIs(s, 0, '$') && CharIs(s, 1, '{')
  }

  /** The first character may be peeled: it is not an ASCII letter and does not open `{{` or `${`. */
  predicate LeadPeelable(s: string) {
    && !(|s| > 0 && IsAsciiLetter(s[0]))
    && !((CharIs(s, 0, '{') || CharIs(s, 0, '$')) && CharIs(s, 1, '{'))
  }

  /** The last character may be peeled: it is not an ASCII letter and does not close `}}`. */
  predicate TrailPeelable(s: string) {
    && !(|s| > 0 && IsAsciiLetter(s[|s| - 1]))
    && !(CharIs(s, |s| - 1, '}') && CharIs(s, |s| - 2, '}'))
  }

  /** `stringIsLegal`: the rules are tried in this fixed order at every level of the
      recursion, and every recursive call is on a strictly shorter string. */
  function IsLegal(s: string): bool
    decreases |s|
  {
    if !HasAsciiLetter(s) then true
    else if BraceWrapped(s) then true
    else if OpensInterpolation(s) then true
    else if StartsWithMarker(s) then IsLegal(s[5..])
    else if EndsWithMarker(s) then IsLegal(s[..|s| - 5])
    else if LeadPeelable(s) then IsLegal(s[1..])
    else if TrailPeelable(s) then IsLegal(s[..|s| - 1])
    else false
  }

  /** Punctuation that may stand before a text value without changing its verdict. */
  predicate LeadPlain(c: char) {
    !IsAsciiLetter(c) && c != '{' && c != '$'
  }

  /** Punctuation that may stand after a text value without changing its verdict. */
  predicate TrailPlain(c: char) {
    !IsAsciiLetter(c) && c != '}' && c != ']'
  }

  /** A string in which no character is an ASCII letter is legal, whatever else it holds
      (digits, punctuation, the empty string, letters outside ASCII such as CJK text). */
  lemma NoLetterIsLegal(s: string)
    requires forall i :: 0 <= i < |s| ==> !IsAsciiLetter(s[i])
    ensures IsLegal(s)
  {
  }

  /** Any string that begins and ends with an ASCII letter is illegal. */
  lemma LetterEndsIsIllegal(s: string)
    requires |s| > 0 && IsAsciiLetter(s[0]) && IsAsciiLetter(s[|s| - 1])
    ensures !IsLegal(s)
  {
    assert HasAsciiLetter(s);
  }

  /** A leading marker is transparent: `$[SP]` followed by `s` has the verdict of `s`. */
  lemma PrefixMarkerTransparent(s: string)
    ensures IsLegal(Marker + s) == IsLegal(s)
  {
    var u := Marker + s;
    assert u[2] == 'S' && IsAsciiLetter(u[2]);
    assert u[..5] == Marker;
    assert u[5..] == s;
  }

  /** Appending a marker to `t` leaves it lettered and not brace-wrapped, and it opens an
      interpolation only if `t` itself does. */
  lemma SuffixMarkerShape(t: string)
    ensures HasAsciiLetter(t + Marker) && !BraceWrapped(t + Marker)
    ensures OpensInterpolation(t + Marker) ==> |t| >= 2 && OpensInterpolation(t)
  {
    var u := t + Marker;
    assert u[|t| + 2] == 'S' && IsAsciiLetter(u[|t| + 2]);
    assert u[|u| - 1] == ']';
    if OpensInterpolation(u) {
      assert t[0] == u[0] && t[1] == u[1];
    }
  }

  /** A string that starts with a marker is judged by what follows the marker. */
  lemma StripLeadMarker(s: string)
    requires StartsWithMarker(s)
    ensures IsLegal(s) == IsLegal(s[5..])
  {
    assert s[0] == Marker[0] && s[1] == Marker[1] && s[2] == Marker[2];
    assert HasAsciiLetter(s) by { assert IsAsciiLetter(s[2]); }
  }

  /** The marker does not overlap itself: when `t + $[SP]` starts with a marker and `t` is
      not empty, `t` starts with that same marker. */
  lemma SuffixMarkerLeadStep(t: string)
    requires |t| > 0 && StartsWithMarker(t + Marker)
    ensures StartsWithMarker(t)
    ensures (t + Marker)[5..] == t[5..] + Marker
  {
    var u := t + Marker;
    assert u[|t|] == '$';
    assert forall k :: 1 <= k < 5 ==> Marker[k] != '$';
    assert |t| >= 5;
    assert t[..5] == u[..5];
  }

  /** When `t + $[SP]` does not start with a marker, the classifier strips the trailing one. */
  lemma SuffixMarkerEndStep(t: string)
    requires !OpensInterpolation(t + Marker) && !StartsWithMarker(t + Marker)
    ensures IsLegal(t + Marker) == IsLegal(t)
  {
    var u := t + Marker;
    SuffixMarkerShape(t);
    assert u[|u| - 5..] == Marker;
    assert u[..|u| - 5] == t;
  }

  /** A trailing marker is transparent too, even when the classifier meets another rule first. */
  lemma {:induction false} SuffixMarkerTransparent(t: string)
    ensures IsLegal(t + Marker) == IsLegal(t)
    decreases |t|
  {
    var u := t + Marker;
    SuffixMarkerShape(t);
    if OpensInterpolation(u) {
    } else if !StartsWithMarker(u) {
      SuffixMarkerEndStep(t);
    } else if |t| == 0 {
      assert u[5..] == [];
    } else {
      SuffixMarkerLeadStep(t);
      StripLeadMarker(u);
      StripLeadMarker(t);
      SuffixMarkerTransparent(t[5..]);
    }
  }

  /** Peeling a peelable first character never changes the verdict, even when the
      classifier would strip a trailing marker before it gets to the peel. */
  lemma {:induction false} LeadPeel(s: string)
    requires |s| > 0 && LeadPeelable(s) && !StartsWithMarker(s)
    ensures IsLegal(s) == IsLegal(s[1..])
    decreases |s|
  {
    if !HasAsciiLetter(s) {
      assert !HasAsciiLetter(s[1..]) by {
        forall i | 0 <= i < |s[1..]| ensures !IsAsciiLetter(s[1..][i]) {
          assert s[1..][i] == s[i + 1];
        }
      }
    } else if EndsWithMarker(s) {
      assert |s| >= 6;
      var t := s[..|s| - 5];
      assert s[1..] == t[1..] + Marker;
      SuffixMarkerTransparent(t[1..]);
      assert t[0] == s[0];
      assert |t| >= 2 ==> t[1] == s[1];
      assert !StartsWithMarker(t) by { if |t| >= 5 { assert t[..5] == s[..5]; } }
      LeadPeel(t);
      assert t[1..] == s[1..|s| - 5];
    }
  }

  /** Plain leading punctuation never changes a verdict. */
  lemma {:induction false} LeadingPaddingTransparent(p: string, s: string)
    requires forall i :: 0 <= i < |p| ==> LeadPlain(p[i])
    ensures IsLegal(p + s) == IsLegal(s)
    decreases |p|
  {
    if p != [] {
      var u := p + s;
      assert u[0] == p[0];
      LeadPeel(u);
      assert u[1..] == p[1..] + s;
      LeadingPaddingTransparent(p[1..], s);
    } else {
      assert p + s == s;
    }
  }

  /** With plain trailing punctuation after a lettered string that neither opens an
      interpolation nor starts with a marker, only the two peel rules can apply. */
  lemma TrailingPaddingShape(s: string, q: string)
    requires forall i :: 0 <= i < |q| ==> TrailPlain(q[i])
    requires q != [] && HasAsciiLetter(s)
    requires !OpensInterpolation(s) && !StartsWithMarker(s)
    ensures HasAsciiLetter(s + q)
    ensures !BraceWrapped(s + q) && !OpensInterpolation(s + q)
    ensures !StartsWithMarker(s + q) && !EndsWithMarker(s + q)
    ensures LeadPeelable(s + q) == LeadPeelable(s)
    ensures TrailPeelable(s + q)
  {
    var u := s + q;
    var i :| 0 <= i < |s| && IsAsciiLetter(s[i]);
    assert u[i] == s[i];
    assert u[|u| - 1] == q[|q| - 1];
    assert |s| == 1 ==> IsAsciiLetter(s[0]);
    assert |s| >= 2 ==> u[0] == s[0] && u[1] == s[1];
    if |u| >= 5 {
      if |s| >= 5 {
        assert u[..5] == s[..5];
      } else {
        assert u[4] == q[4 - |s|];
        assert u[..5][4] == u[4];
      }
      assert u[|u| - 5..][4] == u[|u| - 1];
    }
  }

  /** Trailing punctuation cannot add a letter: without one the padded string is still legal. */
  lemma TrailNoLetterStep(s: string, q: string)
    requires forall i :: 0 <= i < |q| ==> TrailPlain(q[i])
    requires !HasAsciiLetter(s)
    ensures IsLegal(s + q) && IsLegal(s)
  {
    var u := s + q;
    assert !HasAsciiLetter(u) by {
      forall i | 0 <= i < |u| ensures !IsAsciiLetter(u[i]) {
        if i >= |s| { assert u[i] == q[i - |s|]; }
      }
    }
  }

  /** A leading marker is stripped from the padded string just as from the bare one. */
  lemma TrailMarkerStep(s: string, q: string)
    requires HasAsciiLetter(s) && !OpensInterpolation(s) && StartsWithMarker(s)
    ensures IsLegal(s + q) == IsLegal(s[5..] + q)
    ensures IsLegal(s) == IsLegal(s[5..])
  {
    var u := s + q;
    assert u[..5] == s[..5];
    assert u[2] == 'S' && IsAsciiLetter(u[2]);
    assert u[5..] == s[5..] + q;
  }

  /** When the padded string's first character may be peeled, so may the bare one's. */
  lemma TrailLeadStep(s: string, q: string)
    requires forall i :: 0 <= i < |q| ==> TrailPlain(q[i])
    requires q != [] && HasAsciiLetter(s)
    requires !OpensInterpolation(s) && !StartsWithMarker(s)
    requires LeadPeelable(s + q)
    ensures |s| > 0
    ensures IsLegal(s + q) == IsLegal(s[1..] + q)
    ensures IsLegal(s) == IsLegal(s[1..])
  {
    var u := s + q;
    TrailingPaddingShape(s, q);
    assert u[1..] == s[1..] + q;
    LeadPeel(s);
  }

  /** When the padded string's first character stays, its last padding character is peeled. */
  lemma TrailPeelStep(s: string, q: string)
    requires forall i :: 0 <= i < |q| ==> TrailPlain(q[i])
    requires q != [] && HasAsciiLetter(s)
    requires !OpensInterpolation(s) && !StartsWithMarker(s)
    requires !LeadPeelable(s + q)
    ensures IsLegal(s + q) == IsLegal(s + q[..|q| - 1])
  {
    var u := s + q;
    TrailingPaddingShape(s, q);
    assert u[..|u| - 1] == s + q[..|q| - 1];
  }

  /** Plain trailing punctuation never changes a verdict. */
  lemma {:induction false} TrailingPaddingTransparent(s: string, q: string)
    requires forall i :: 0 <= i < |q| ==> TrailPlain(q[i])
    ensures IsLegal(s + q) == IsLegal(s)
    decreases |s| + |q|
  {
    if q == [] {
      assert s + q == s;
    } else if !HasAsciiLetter(s) {
      TrailNoLetterStep(s, q);
    } else if OpensInterpolation(s) {
      assert OpensInterpolation(s + q);
    } else if StartsWithMarker(s) {
      TrailMarkerStep(s, q);
      TrailingPaddingTransparent(s[5..], q);
    } else if LeadPeelable(s + q) {
      TrailLeadStep(s, q);
      TrailingPaddingTransparent(s[1..], q);
    } else {
      TrailPeelStep(s, q);
      TrailingPaddingTransparent(s, q[..|q| - 1]);
    }
  }

  /** `$[SP]s$[SP]` has the verdict of `s`. */
  lemma MarkersTransparent(s: string)
    ensures IsLegal(Marker + s + Marker) == IsLegal(s)
  {
    SuffixMarkerTransparent(Marker + s);
    PrefixMarkerTransparent(s);
  }

  /** A mustache placeholder surrounded by plain punctuation is legal, whatever it encloses. */
  lemma PaddedPlaceholderIsLegal(p: string, x: string, q: string)
    requires forall i :: 0 <= i < |p| ==> LeadPlain(p[i])
    requires forall i :: 0 <= i < |q| ==> TrailPlain(q[i])
    ensures IsLegal(p + ("{{" + x + "}}") + q)
  {
    var w := "{{" + x + "}}";
    assert p + w + q == p + (w + q);
    LeadingPaddingTransparent(p, w + q);
    TrailingPaddingTransparent(w, q);
    assert BraceWrapped(w);
  }

  /** A `${` interpolation after plain punctuation is legal, whatever follows its opener. */
  lemma PaddedInterpolationIsLegal(p: string, x: string)
    requires forall i :: 0 <= i < |p| ==> LeadPlain(p[i])
    ensures IsLegal(p + ("${" + x))
  {
    LeadingPaddingTransparent(p, "${" + x);
    assert OpensInterpolation("${" + x);
  }

  /** Text that begins and ends with an ASCII letter stays illegal under plain punctuation. */
  lemma PaddedWordIsIllegal(p: string, w: string, q: string)
    requires forall i :: 0 <= i < |p| ==> LeadPlain(p[i])
    requires forall i :: 0 <= i < |q| ==> TrailPlain(q[i])
    requires |w| > 0 && IsAsciiLetter(w[0]) && IsAsciiLetter(w[|w| - 1])
    ensures !IsLegal(p + w + q)
  {
    assert p + w + q == p + (w + q);
    LeadingPaddingTransparent(p, w + q);
    TrailingPaddingTransparent(w, q);
    LetterEndsIsIllegal(w);
  }
}
