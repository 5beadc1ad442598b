/** The slug normaliser both organisation pages apply to what the user
    types: `value.toLowerCase().replace(/\s+/g, '-').replace(/[^a-z0-9-]/g, '')`.
    Lower-cases first, then turns every maximal run of whitespace into one
    hyphen, then drops every character outside `a-z`, `0-9` and `-`. Only
    ASCII letters are lower-cased and only ASCII whitespace counts. */
module Slug {
  import opened Common

  /** `toLowerCase` on one ASCII character. */
  function LowerChar(c: char): char
  {
    if 'A' <= c <= 'Z' then (c as int + 32) as char else c
  }

  /** The characters `[a-z0-9-]` lets through. */
  predicate IsSlugChar(c: char)
  {
    'a' <= c <= 'z' || '0' <= c <= '9' || c == '-'
  }

  predicate IsSlug(s: string)
  {
    forall i :: 0 <= i < |s| ==> IsSlugChar(s[i])
  }

  predicate NoSpace(s: string)
  {
    forall i :: 0 <= i < |s| ==> !IsSpace(s[i])
  }

  /** `toLowerCase()`: character by character. */
  function Lower(s: string): string
  {
    seq(|s|, i requires 0 <= i < |s| => LowerChar(s[i]))
  }

  /** `replace(/\s+/g, '-')` read left to right: the first whitespace
      character of a run gives a hyphen, the rest of the run (`inRun`)
      gives nothing, any other character is copied. */
  function HyphenateFrom(s: string, inRun: bool): string
  {
    if s == [] then []
    else if IsSpace(s[0]) then (if inRun then [] else "-") + HyphenateFrom(s[1..], true)
    else [s[0]] + HyphenateFrom(s[1..], false)
  }

  /** `replace(/\s+/g, '-')`: every maximal run of whitespace becomes one hyphen. */
  function Hyphenate(s: string): string
  {
    HyphenateFrom(s, false)
  }

  /** Whether the scan is inside a whitespace run after reading `u`. */
  function InRunAfter(u: string, inRun: bool): bool
  {
    if u == [] then inRun else IsSpace(u[|u| - 1])
  }

  /** `replace(/[^a-z0-9-]/g, '')`: keeps, in order, the characters a slug may hold. */
  function Strip(s: string): (r: string)
    ensures IsSlug(r) && |r| <= |s|
  {
    if s == [] then []
    else (if IsSlugChar(s[0]) then [s[0]] else []) + Strip(s[1..])
  }

  /** The whole normaliser. Its result only ever holds `a-z`, `0-9` and `-`. */
  function Slugify(s: string): (r: string)
    ensures IsSlug(r)
  {
    Strip(Hyphenate(Lower(s)))
  }

  /** Lower-casing leaves a slug as it is. */
  lemma LowerOfSlug(s: string)
    requires IsSlug(s)
    ensures Lower(s) == s
  {
    assert forall i :: 0 <= i < |s| ==> Lower(s)[i] == s[i];
  }

  /** No whitespace survives the hyphen step. */
  lemma {:induction false} HyphenateNoSpace(s: string, inRun: bool)
    ensures NoSpace(HyphenateFrom(s, inRun))
    decreases |s|
  {
    if s != [] {
      HyphenateNoSpace(s[1..], IsSpace(s[0]));
    }
  }

  /** With no whitespace to replace, the hyphen step changes nothing. */
  lemma {:induction false} HyphenateOfNoSpace(s: string, inRun: bool)
    requires NoSpace(s)
    ensures HyphenateFrom(s, inRun) == s
    decreases |s|
  {
    if s != [] {
      HyphenateOfNoSpace(s[1..], false);
    }
  }

  /** With nothing to drop, the strip step changes nothing. */
  lemma {:induction false} StripOfSlug(s: string)
    requires IsSlug(s)
    ensures Strip(s) == s
    decreases |s|
  {
    if s != [] {
      StripOfSlug(s[1..]);
    }
  }

  /** A slug comes out of the normaliser as it went in: a slug shown by one
      page and typed into the other arrives unchanged. */
  lemma SlugifyOfSlug(t: string)
    requires IsSlug(t)
    ensures Slugify(t) == t
  {
    LowerOfSlug(t);
    assert NoSpace(t) by {
      forall i | 0 <= i < |t|
        ensures !IsSpace(t[i])
      {
        assert IsSlugChar(t[i]);
      }
    }
    HyphenateOfNoSpace(t, false);
    StripOfSlug(t);
  }

  /** Normalising a normalised slug again gives the same slug. */
  lemma SlugifyIdempotent(s: string)
    ensures Slugify(Slugify(s)) == Slugify(s)
  {
    SlugifyOfSlug(Slugify(s));
  }

  /** Lower-casing works character by character. */
  lemma LowerAppend(u: string, v: string)
    ensures Lower(u + v) == Lower(u) + Lower(v)
  {
    assert forall i :: 0 <= i < |u + v| ==> Lower(u + v)[i] == (Lower(u) + Lower(v))[i];
  }

  /** Lower-casing keeps whitespace whitespace and everything else not. */
  lemma LowerKeepsSpace(c: char)
    ensures IsSpace(LowerChar(c)) <==> IsSpace(c)
  {
  }

  /** Stripping works character by character. */
  lemma {:induction false} StripAppend(u: string, v: string)
    ensures Strip(u + v) == Strip(u) + Strip(v)
    decreases |u|
  {
    if u == [] {
      assert u + v == v;
    } else {
      assert (u + v)[0] == u[0];
      assert (u + v)[1..] == u[1..] + v;
      StripAppend(u[1..], v);
    }
  }

  /** The hyphen step on `u + v` is the step on `u` followed by the step on
      `v`, resumed in the state `u` left the scan in. */
  lemma {:induction false} HyphenateFromAppend(u: string, v: string, inRun: bool)
    ensures HyphenateFrom(u + v, inRun) == HyphenateFrom(u, inRun) + HyphenateFrom(v, InRunAfter(u, inRun))
    decreases |u|
  {
    if u == [] {
      assert u + v == v;
    } else {
      assert (u + v)[0] == u[0];
      assert (u + v)[1..] == u[1..] + v;
      HyphenateFromAppend(u[1..], v, IsSpace(u[0]));
      if u[1..] != [] {
        assert u[1..][|u[1..]| - 1] == u[|u| - 1];
      }
    }
  }

  /** Resuming the scan inside a run changes nothing when `v` does not
      start with whitespace. */
  lemma HyphenateFromNonSpace(v: string)
    requires v == [] || !IsSpace(v[0])
    ensures HyphenateFrom(v, true) == HyphenateFrom(v, false)
  {
  }

  /** Splitting `u + v` between two characters that are not both whitespace
      does not split a whitespace run, so the hyphen step works on the two
      parts separately. */
  lemma HyphenateAppend(u: string, v: string)
    requires u == [] || v == [] || !IsSpace(u[|u| - 1]) || !IsSpace(v[0])
    ensures Hyphenate(u + v) == Hyphenate(u) + Hyphenate(v)
  {
    HyphenateFromAppend(u, v, false);
    if InRunAfter(u, false) {
      HyphenateFromNonSpace(v);
    }
  }

  /** Normalising works piece by piece, as long as the cut does not fall
      inside a whitespace run. */
  lemma SlugifyAppend(u: string, v: string)
    requires u == [] || v == [] || !IsSpace(u[|u| - 1]) || !IsSpace(v[0])
    ensures Slugify(u + v) == Slugify(u) + Slugify(v)
  {
    LowerAppend(u, v);
    if u != [] && v != [] {
      LowerKeepsSpace(u[|u| - 1]);
      LowerKeepsSpace(v[0]);
    }
    HyphenateAppend(Lower(u), Lower(v));
    StripAppend(Hyphenate(Lower(u)), Hyphenate(Lower(v)));
  }

  /** A non-empty string of whitespace only. */
  predicate SpaceRun(sp: string)
  {
    |sp| > 0 && forall i :: 0 <= i < |sp| ==> IsSpace(sp[i])
  }

  /** Inside a run, further whitespace gives nothing. */
  lemma {:induction false} HyphenateInRun(sp: string)
    requires forall i :: 0 <= i < |sp| ==> IsSpace(sp[i])
    ensures HyphenateFrom(sp, true) == []
    decreases |sp|
  {
    if sp != [] {
      HyphenateInRun(sp[1..]);
    }
  }

  /** A whole run of whitespace, however long, becomes a single hyphen. */
  lemma SlugifySpaceRun(sp: string)
    requires SpaceRun(sp)
    ensures Slugify(sp) == "-"
  {
    var low := Lower(sp);
    forall i | 0 <= i < |low|
      ensures IsSpace(low[i])
    {
      LowerKeepsSpace(sp[i]);
    }
    HyphenateInRun(low[1..]);
    assert Hyphenate(low) == "-";
    assert Strip("-") == "-" + Strip([]);
  }

  /** One character on its own: whitespace becomes a hyphen, an upper-case
      letter its lower-case form (lower-casing comes before stripping), and
      any other character outside `[a-z0-9-]` disappears. */
  lemma SlugifyChar(c: char)
    ensures Slugify([c]) == if IsSpace(c) then "-" else if IsSlugChar(LowerChar(c)) then [LowerChar(c)] else []
  {
    assert Lower([c]) == [LowerChar(c)];
    if IsSpace(c) {
      SlugifySpaceRun([c]);
    } else {
      var lc := LowerChar(c);
      LowerKeepsSpace(c);
      assert [lc][1..] == [];
      assert [lc][0] == lc;
      assert HyphenateFrom([lc], false) == [lc] + HyphenateFrom([], false);
      assert Strip([lc]) == (if IsSlugChar(lc) then [lc] else []) + Strip([]);
    }
  }
}
