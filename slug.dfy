/**
 * Slug derivation in the admin page: when the title field changes, the slug becomes
 *   title.toLowerCase().replace(/[^\w\s-]/g, '').replace(/\s+/g, '-').replace(/--+/g, '-').trim('-')
 * `trim` takes no argument, so the `'-'` is ignored and only whitespace is trimmed.
 */
module Slug {
  import opened Text

  predicate IsUpper(c: char) {
    'A' <= c <= 'Z'
  }

  /** `toLowerCase` on ASCII letters; other characters are left as they are. */
  function ToLower(c: char): (d: char)
    ensures IsUpper(c) ==> 'a' <= d <= 'z' && d as int == c as int + 32
    ensures !IsUpper(c) ==> d == c
  {
    if IsUpper(c) then (c as int - 'A' as int + 'a' as int) as char else c
  }

  function Lower(s: string): (r: string)
    ensures |r| == |s|
    ensures forall i :: 0 <= i < |s| ==> r[i] == ToLower(s[i]) && !IsUpper(r[i])
  {
    seq(|s|, i requires 0 <= i < |s| => ToLower(s[i]))
  }

  /** `\w`: an ASCII letter, digit or underscore. */
  predicate IsWordChar(c: char) {
    ('a' <= c <= 'z') || IsUpper(c) || ('0' <= c <= '9') || c == '_'
  }

  /** A character that survives `.replace(/[^\w\s-]/g, '')`. */
  predicate Kept(c: char) {
    IsWordChar(c) || IsSpace(c) || c == '-'
  }

  /** `.replace(/[^\w\s-]/g, '')`: drop every character that is not a word character, whitespace or `-`. */
  function Strip(s: string): string {
    if s == [] then []
    else if Kept(s[0]) then [s[0]] + Strip(s[1..])
    else Strip(s[1..])
  }

  /** The two run-collapsing steps: runs of whitespace, and runs of hyphens. */
  datatype RunKind = Spaces | Hyphens

  predicate InRun(c: char, k: RunKind) {
    match k
    case Spaces => IsSpace(c)
    case Hyphens => c == '-'
  }

  /** `s` without its leading run of `k` characters: a suffix of `s` that does not start with one. */
  function DropRun(s: string, k: RunKind): (r: string)
    ensures |r| <= |s| && r == s[|s| - |r|..]
    ensures r == [] || !InRun(r[0], k)
  {
    if s != [] && InRun(s[0], k) then DropRun(s[1..], k) else s
  }

  /**
   * Every maximal run of `k` characters replaced by one `-`: `.replace(/\s+/g, '-')`
   * for `Spaces`; `.replace(/--+/g, '-')` for `Hyphens` (a lone `-` is replaced by itself).
   */
  function ReplaceRuns(s: string, k: RunKind): string
    decreases |s|
  {
    if s == [] then []
    else if InRun(s[0], k) then "-" + ReplaceRuns(DropRun(s[1..], k), k)
    else [s[0]] + ReplaceRuns(s[1..], k)
  }

  predicate NoDoubleHyphen(s: string) {
    forall i :: 0 <= i < |s| - 1 ==> !(s[i] == '-' && s[i + 1] == '-')
  }

  /** A character that may appear in a derived slug: `[a-z0-9_-]`. */
  predicate IsSlugChar(c: char) {
    ('a' <= c <= 'z') || ('0' <= c <= '9') || c == '_' || c == '-'
  }

  /** The shape of every derived slug. */
  predicate IsSlug(s: string) {
    (forall i :: 0 <= i < |s| ==> IsSlugChar(s[i])) && NoDoubleHyphen(s)
  }

  /** The slug derived from a title (admin page, title change of any of the three forms). */
  function Slugify(title: string): string {
    Trim(ReplaceRuns(ReplaceRuns(Strip(Lower(title)), Spaces), Hyphens))
  }

  /** Stripping a string without upper-case letters leaves only slug characters and whitespace. */
  lemma {:induction false} StripOfLowered(s: string)
    requires forall i :: 0 <= i < |s| ==> !IsUpper(s[i])
    ensures forall i :: 0 <= i < |Strip(s)| ==> IsSlugChar(Strip(s)[i]) || IsSpace(Strip(s)[i])
  {
    if s != [] {
      StripOfLowered(s[1..]);
    }
  }

  /** Stripping keeps a string whose characters all survive it. */
  lemma {:induction false} StripOfKept(s: string)
    requires forall i :: 0 <= i < |s| ==> Kept(s[i])
    ensures Strip(s) == s
  {
    if s != [] {
      StripOfKept(s[1..]);
      assert [s[0]] + s[1..] == s;
    }
  }

  /** Collapsing whitespace runs in slug characters and whitespace leaves only slug characters. */
  lemma {:induction false} SpacesCollapsed(b: string)
    requires forall i :: 0 <= i < |b| ==> IsSlugChar(b[i]) || IsSpace(b[i])
    ensures forall i :: 0 <= i < |ReplaceRuns(b, Spaces)| ==> IsSlugChar(ReplaceRuns(b, Spaces)[i])
    decreases |b|
  {
    if b != [] {
      if IsSpace(b[0]) {
        var t := DropRun(b[1..], Spaces);
        assert forall i :: 0 <= i < |t| ==> t[i] == b[|b| - |t| + i];
        SpacesCollapsed(t);
      } else {
        SpacesCollapsed(b[1..]);
      }
    }
  }

  /** Collapsing hyphen runs in a string of slug characters gives a slug. */
  lemma {:induction false} HyphensCollapsed(c: string)
    requires forall i :: 0 <= i < |c| ==> IsSlugChar(c[i])
    ensures IsSlug(ReplaceRuns(c, Hyphens))
    decreases |c|
  {
    if c != [] {
      if c[0] == '-' {
        var t := DropRun(c[1..], Hyphens);
        assert forall i :: 0 <= i < |t| ==> t[i] == c[|c| - |t| + i];
        HyphensCollapsed(t);
        assert t != [] ==> ReplaceRuns(t, Hyphens)[0] == t[0];
      } else {
        HyphensCollapsed(c[1..]);
      }
    }
  }

  /** No slug character is whitespace. */
  lemma SlugCharNotSpace(c: char)
    requires IsSlugChar(c)
    ensures !IsSpace(c)
  {
  }

  /** A slug has no whitespace, so trimming leaves it as it is. */
  lemma TrimOfSlug(s: string)
    requires IsSlug(s)
    ensures Trim(s) == s
  {
    if s != [] {
      SlugCharNotSpace(s[0]);
      SlugCharNotSpace(s[|s| - 1]);
      assert Trimmed(s);
    }
  }

  /** A derived slug holds only `[a-z0-9_-]`, hence no whitespace, and never `--`. */
  lemma SlugifyIsSlug(title: string)
    ensures IsSlug(Slugify(title))
  {
    var b := Strip(Lower(title));
    StripOfLowered(Lower(title));
    SpacesCollapsed(b);
    HyphensCollapsed(ReplaceRuns(b, Spaces));
    TrimOfSlug(ReplaceRuns(ReplaceRuns(b, Spaces), Hyphens));
  }

  /** Collapsing whitespace runs changes nothing in a string without whitespace. */
  lemma {:induction false} ReplaceSpacesOfSlug(s: string)
    requires IsSlug(s)
    ensures ReplaceRuns(s, Spaces) == s
  {
    if s != [] {
      SlugCharNotSpace(s[0]);
      assert IsSlug(s[1..]);
      ReplaceSpacesOfSlug(s[1..]);
      assert ReplaceRuns(s, Spaces) == [s[0]] + ReplaceRuns(s[1..], Spaces);
      assert [s[0]] + s[1..] == s;
    }
  }

  /** Collapsing hyphen runs changes nothing in a string without `--`. */
  lemma {:induction false} ReplaceHyphensOfSlug(s: string)
    requires IsSlug(s)
    ensures ReplaceRuns(s, Hyphens) == s
  {
    if s != [] {
      assert IsSlug(s[1..]);
      ReplaceHyphensOfSlug(s[1..]);
      if s[0] == '-' {
        assert DropRun(s[1..], Hyphens) == s[1..];
      }
      assert [s[0]] + s[1..] == s;
    }
  }

  /** Every slug-shaped string, leading and trailing hyphens included, is its own slug. */
  lemma SlugOfSlug(s: string)
    requires IsSlug(s)
    ensures Slugify(s) == s
  {
    assert Lower(s) == s;
    StripOfKept(s);
    ReplaceSpacesOfSlug(s);
    ReplaceHyphensOfSlug(s);
    TrimOfSlug(s);
  }

  /** Deriving a slug from a slug gives it back: `Slugify` is idempotent. */
  lemma SlugifyIdempotent(title: string)
    ensures Slugify(Slugify(title)) == Slugify(title)
  {
    SlugifyIsSlug(title);
    SlugOfSlug(Slugify(title));
  }

  /** `.trim('-')` keeps hyphens at both ends: the slug of `"-a-"` is `"-a-"`. */
  lemma HyphensSurviveTrim()
    ensures Slugify("-a-") == "-a-"
  {
    SlugOfSlug("-a-");
  }

  /** Stripping distributes over concatenation. */
  lemma {:induction false} StripAppend(a: string, b: string)
    ensures Strip(a + b) == Strip(a) + Strip(b)
  {
    if a != [] {
      StripAppend(a[1..], b);
      assert (a + b)[0] == a[0] && (a + b)[1..] == a[1..] + b;
    } else {
      assert a + b == b;
    }
  }

  /** A piece with no run character passes through run collapsing unchanged. */
  lemma {:induction false} ReplaceRunsPlain(w: string, b: string, k: RunKind)
    requires forall i :: 0 <= i < |w| ==> !InRun(w[i], k)
    ensures ReplaceRuns(w + b, k) == w + ReplaceRuns(b, k)
  {
    if w != [] {
      ReplaceRunsPlain(w[1..], b, k);
      assert (w + b)[0] == w[0] && (w + b)[1..] == w[1..] + b;
      assert [w[0]] + w[1..] == w;
    } else {
      assert w + b == b;
    }
  }

  /** Dropping a run followed by a non-run character leaves that character and the rest. */
  lemma {:induction false} DropRunPrefix(r: string, b: string, k: RunKind)
    requires forall i :: 0 <= i < |r| ==> InRun(r[i], k)
    requires b == [] || !InRun(b[0], k)
    ensures DropRun(r + b, k) == b
  {
    if r != [] {
      var x := r + b;
      assert x[0] == r[0] && x[1..] == r[1..] + b;
      assert InRun(x[0], k);
      DropRunPrefix(r[1..], b, k);
    } else {
      assert r + b == b;
    }
  }

  /** A whole run, followed by a non-run character, becomes one `-`. */
  lemma ReplaceRunsRun(r: string, b: string, k: RunKind)
    requires |r| > 0 && forall i :: 0 <= i < |r| ==> InRun(r[i], k)
    requires b == [] || !InRun(b[0], k)
    ensures ReplaceRuns(r + b, k) == "-" + ReplaceRuns(b, k)
  {
    assert (r + b)[1..] == r[1..] + b;
    DropRunPrefix(r[1..], b, k);
  }
}
