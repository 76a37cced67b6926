/** The slug rule that turns a table title into a page path: lower-case,
    white-space runs to one dash, drop everything but word characters and
    dashes, collapse dash runs, strip dashes at both ends. */
module Slug {
  import opened Common

  /** A character a slug may hold: [a-z0-9_-]. */
  predicate SlugChar(c: char) { IsLower(c) || IsDigit(c) || c == '_' || c == '-' }

  predicate NoDoubleDash(s: string) {
    forall i :: 0 <= i < |s| - 1 ==> !(s[i] == '-' && s[i + 1] == '-')
  }

  predicate SlugChars(s: string) {
    forall i :: 0 <= i < |s| ==> SlugChar(s[i])
  }

  /** What the rule promises of its output. */
  predicate IsSlug(s: string) {
    SlugChars(s)
    && NoDoubleDash(s)
    && (s == [] || (s[0] != '-' && s[|s| - 1] != '-'))
  }

  // ---------------------------------------------------------------------
  // The five replacements

  /** `.replace(/\s+/g, '-')`: every maximal run of white space becomes one dash. */
  function SpacesToDash(s: string): (r: string)
    ensures forall c :: c in r ==> c == '-' || c in s
    ensures forall c :: c in r ==> !IsSpace(c)
    decreases |s|
  {
    if s == [] then []
    else if IsSpace(s[0]) then
      TrimStartMembers(s[1..]);
      "-" + SpacesToDash(TrimStart(s[1..]))
    else [s[0]] + SpacesToDash(s[1..])
  }

  lemma TrimStartMembers(s: string)
    ensures forall c :: c in TrimStart(s) ==> c in s
  {
    if |s| > 0 && IsSpace(s[0]) {
      TrimStartMembers(s[1..]);
    }
  }

  predicate WordOrDash(c: char) { IsWordChar(c) || c == '-' }

  /** `.replace(/[^\w\-]+/g, '')`: only word characters and dashes remain. */
  function KeepWordChars(s: string): string {
    Filter(s, WordOrDash)
  }

  /** Leading dashes dropped: `.replace(/^-+/, '')`. */
  function DropDashes(s: string): (r: string)
    ensures |r| <= |s| && r == s[|s| - |r|..]
    ensures r == [] || r[0] != '-'
  {
    if s != [] && s[0] == '-' then DropDashes(s[1..]) else s
  }

  /** Only leading dashes are dropped: everything before the result is a
      dash, and none is left at its start. */
  lemma {:induction false} DropDashesStrips(s: string)
    ensures var r := DropDashes(s);
            r == s[|s| - |r|..] && (r == [] || r[0] != '-')
            && forall k :: 0 <= k < |s| - |r| ==> s[k] == '-'
  {
    if s != [] && s[0] == '-' {
      var r := DropDashes(s[1..]);
      DropDashesStrips(s[1..]);
      assert DropDashes(s) == r;
      forall k | 1 <= k < |s| - |r| ensures s[k] == '-' {
        assert s[k] == s[1..][k - 1];
      }
    }
  }

  /** Trailing dashes dropped: `.replace(/-+$/, '')`. */
  function DropDashesEnd(s: string): (r: string)
    ensures r <= s
    ensures r == [] || r[|r| - 1] != '-'
  {
    if s != [] && s[|s| - 1] == '-' then DropDashesEnd(s[..|s| - 1]) else s
  }

  /** Only trailing dashes are dropped: everything after the result is a
      dash, and none is left at its end. */
  lemma {:induction false} DropDashesEndStrips(s: string)
    ensures var r := DropDashesEnd(s);
            r <= s && (r == [] || r[|r| - 1] != '-')
            && forall k :: |r| <= k < |s| ==> s[k] == '-'
  {
    if s != [] && s[|s| - 1] == '-' {
      DropDashesEndStrips(s[..|s| - 1]);
    }
  }

  /** `.replace(/\-\-+/g, '-')`: every run of dashes becomes one dash. */
  function CollapseDashes(s: string): (r: string)
    ensures forall c :: c in r ==> c == '-' || c in s
    ensures NoDoubleDash(r)
    ensures s != [] ==> |r| > 0 && (r[0] == '-' <==> s[0] == '-')
    decreases |s|
  {
    if s == [] then []
    else if s[0] == '-' then
      var rest := CollapseDashes(DropDashes(s[1..]));
      assert rest == [] || rest[0] != '-';
      "-" + rest
    else
      var rest := CollapseDashes(s[1..]);
      [s[0]] + rest
  }

  function Slugify(text: string): string {
    DropDashesEnd(DropDashes(CollapseDashes(KeepWordChars(SpacesToDash(Lower(text))))))
  }

  // ---------------------------------------------------------------------
  // Properties

  lemma KeepWordCharsSlugChars(s: string)
    requires forall c :: c in s ==> !IsUpper(c)
    ensures forall c :: c in KeepWordChars(s) ==> SlugChar(c)
  {
    FilterMembers(s, WordOrDash);
  }

  lemma LowerHasNoUpper(s: string)
    ensures forall c :: c in Lower(s) ==> !IsUpper(c)
  {
    forall c | c in Lower(s) ensures !IsUpper(c) {
      var i :| 0 <= i < |s| && Lower(s)[i] == c;
    }
  }

  /** A slice keeps the character set and the absence of dash runs. */
  lemma SliceKeepsShape(c: string, i: int, j: int)
    requires 0 <= i <= j <= |c|
    requires SlugChars(c) && NoDoubleDash(c)
    ensures SlugChars(c[i..j]) && NoDoubleDash(c[i..j])
  {
    var e := c[i..j];
    forall k | 0 <= k < j - i ensures SlugChar(e[k]) {
      assert e[k] == c[i + k];
    }
    forall k | 0 <= k < |e| - 1 ensures !(e[k] == '-' && e[k + 1] == '-') {
      assert e[k] == c[i + k] && e[k + 1] == c[i + k + 1];
    }
  }

  /** A prefix of a suffix of a string of slug characters without dash runs,
      cut where neither end is a dash, is a slug. */
  lemma StrippedSliceIsSlug(c: string, d: string, e: string, off: int)
    requires SlugChars(c) && NoDoubleDash(c)
    requires 0 <= off <= |c| && d == c[off..] && (d == [] || d[0] != '-')
    requires |e| <= |d| && e == d[..|e|] && (e == [] || e[|e| - 1] != '-')
    ensures IsSlug(e)
  {
    assert e == c[off..off + |e|];
    SliceKeepsShape(c, off, off + |e|);
    assert e != [] ==> e[0] == d[0];
  }

  /** Stripping the dashes at both ends keeps the character set and the
      absence of dash runs. */
  lemma StripDashesIsSlug(c: string)
    requires SlugChars(c) && NoDoubleDash(c)
    ensures IsSlug(DropDashesEnd(DropDashes(c)))
  {
    var d := DropDashes(c);
    var e := DropDashesEnd(d);
    assert e == d[..|e|];
    StrippedSliceIsSlug(c, d, e, |c| - |d|);
  }

  /** Every slug satisfies the slug shape: only [a-z0-9_-], no two dashes in
      a row, no dash at either end. */
  lemma SlugifyIsSlug(text: string)
    ensures IsSlug(Slugify(text))
  {
    var a := SpacesToDash(Lower(text));
    LowerHasNoUpper(text);
    var b := KeepWordChars(a);
    KeepWordCharsSlugChars(a);
    var c := CollapseDashes(b);
    assert SlugChars(c) by {
      forall i | 0 <= i < |c| ensures SlugChar(c[i]) {
        assert c[i] in c;
      }
    }
    StripDashesIsSlug(c);
  }

  /** A run of white space followed by a non-space character (or the end)
      becomes exactly one dash. */
  lemma {:induction false} SpaceRunToDash(w: string, y: string)
    requires |w| > 0 && forall k :: 0 <= k < |w| ==> IsSpace(w[k])
    requires y == [] || !IsSpace(y[0])
    ensures SpacesToDash(w + y) == "-" + SpacesToDash(y)
  {
    assert (w + y)[1..] == w[1..] + y;
    TrimStartSpaces(w[1..], y);
  }

  lemma {:induction false} TrimStartSpaces(w: string, y: string)
    requires forall k :: 0 <= k < |w| ==> IsSpace(w[k])
    requires y == [] || !IsSpace(y[0])
    ensures TrimStart(w + y) == y
    decreases |w|
  {
    if w == [] {
      assert w + y == y;
    } else {
      assert (w + y)[1..] == w[1..] + y;
      TrimStartSpaces(w[1..], y);
    }
  }

  /** A character that is not white space is kept as it is. */
  lemma NonSpaceKept(c: char, y: string)
    requires !IsSpace(c)
    ensures SpacesToDash([c] + y) == [c] + SpacesToDash(y)
  {
    assert ([c] + y)[1..] == y;
  }

  lemma {:induction false} SpacesToDashFixed(s: string)
    requires forall c :: c in s ==> !IsSpace(c)
    ensures SpacesToDash(s) == s
  {
    if s != [] {
      SpacesToDashFixed(s[1..]);
      assert [s[0]] + s[1..] == s;
    }
  }

  lemma {:induction false} CollapseDashesFixed(s: string)
    requires NoDoubleDash(s)
    ensures CollapseDashes(s) == s
  {
    if s != [] {
      CollapseDashesFixed(s[1..]);
      if s[0] == '-' {
        assert s[1..] == [] || s[1] != '-';
        assert DropDashes(s[1..]) == s[1..];
      }
      assert [s[0]] + s[1..] == s;
    }
  }

  /** A slug is left unchanged by the rule. */
  lemma SlugFixpoint(s: string)
    requires IsSlug(s)
    ensures Slugify(s) == s
  {
    assert Lower(s) == s;
    SpacesToDashFixed(s);
    FilterKeepsAll(s, WordOrDash);
    CollapseDashesFixed(s);
  }

  /** Slugifying twice gives the same path as slugifying once. */
  lemma SlugifyIdempotent(text: string)
    ensures Slugify(Slugify(text)) == Slugify(text)
  {
    SlugifyIsSlug(text);
    SlugFixpoint(Slugify(text));
  }
}
