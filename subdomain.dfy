/**
 * The URL rewrite of PhpBrowser::amOnSubdomain (PhpBrowser.php lines 96-102):
 * two preg_replace passes over the configured url.
 *
 *   pass 1, line 99:  ~(https?:\/\/)(.*\.)(.*\.)~  replaced by "$1$3"
 *   pass 2, line 100: ~(https?:\/\/)(.*)~          replaced by "$1$subdomain.$2"
 *
 * StripPass and InsertPassAsWritten are the passes as the source writes them,
 * on the matcher of module Pcre. InsertPass is pass 2 as intended: the
 * subdomain is inserted literally (see InsertPassAsWrittenDropsScheme for what
 * PHP makes of the template when the subdomain starts with a digit).
 * StripSpec and InsertSpec say what the passes do in terms of the first
 * scheme of the url and the dots after it; the lemmas below tie the two.
 */
module Subdomain {
  import opened Wrappers
  import opened Pcre

  /* ---------------------------------------------------------------------- */
  /* The two passes                                                          */
  /* ---------------------------------------------------------------------- */

  /** Pass 1 (line 99): removing the current subdomain. */
  function StripPass(url: string): string {
    PregReplace(StripPattern, ParseTemplate("$1$3"), url)
  }

  /** Pass 2 (line 100) as written: PHP interpolates the subdomain into the
      template "$1" + subdomain + ".$2" before preg_replace reads it. */
  function InsertPassAsWritten(url: string, subdomain: string): string
    requires '\\' !in subdomain
  {
    PregReplace(InsertPattern, ParseTemplate("$1" + subdomain + ".$2"), url)
  }

  /** Pass 2 as intended: group 1 (the scheme), the subdomain as literal
      text, a dot, then group 2 (the rest of the line). */
  function InsertPass(url: string, subdomain: string): string {
    PregReplace(InsertPattern, [Ref(1)] + Lits(subdomain) + [Lit('.'), Ref(2)], url)
  }

  /** The url that amOnSubdomain passes to _reconfigure (line 101), with
      pass 2 as intended. */
  function Rewrite(url: string, subdomain: string): string {
    InsertPass(StripPass(url), subdomain)
  }

  /** The same url with pass 2 as written; see RewriteAsWrittenAgrees and
      RewriteAsWrittenDigit for how the two compare. */
  function RewriteAsWritten(url: string, subdomain: string): string
    requires '\\' !in subdomain
  {
    InsertPassAsWritten(StripPass(url), subdomain)
  }

  /* ---------------------------------------------------------------------- */
  /* What the passes do                                                      */
  /* ---------------------------------------------------------------------- */

  /** The first position at or after from where `https?://` starts. */
  function FindScheme(s: string, from: nat): (r: Option<nat>)
    ensures r.Some? ==> from <= r.value && SchemeEnd(s, r.value).Some?
    ensures r.Some? ==> forall q: nat :: from <= q < r.value ==> SchemeEnd(s, q).None?
    ensures r.None? ==> forall q: nat :: from <= q ==> SchemeEnd(s, q).None?
    decreases |s| - from
  {
    if from >= |s| then None
    else if SchemeEnd(s, from).Some? then Some(from)
    else FindScheme(s, from + 1)
  }

  /** A url cut around its first scheme. */
  datatype SchemeSplit = SchemeSplit(before: string, scheme: string, rest: string)

  function SplitAtScheme(url: string): (r: Option<SchemeSplit>)
    ensures r.None? ==> forall q: nat :: SchemeEnd(url, q).None?
    ensures r.Some? ==> r.value.before + r.value.scheme + r.value.rest == url
    ensures r.Some? ==> r.value.scheme == "http://" || r.value.scheme == "https://"
    ensures r.Some? ==> SchemeEnd(url, |r.value.before|) == Some(|r.value.before| + |r.value.scheme|)
    ensures r.Some? ==> forall q: nat :: q < |r.value.before| ==> SchemeEnd(url, q).None?
  {
    match FindScheme(url, 0)
    case None => None
    case Some(p) =>
      var e := SchemeEnd(url, p).value;
      assert url[..p] + url[p..e] + url[e..] == url;
      Some(SchemeSplit(url[..p], url[p..e], url[e..]))
  }

  /** The parts of a split as slices of the url. */
  lemma SplitAtSchemeSlices(url: string)
    requires SplitAtScheme(url).Some?
    ensures var sp := SplitAtScheme(url).value;
      var p, e := |sp.before|, |sp.before| + |sp.scheme|;
      && e <= |url| && url[..p] == sp.before && url[p..e] == sp.scheme && url[e..] == sp.rest
  {
    var sp := SplitAtScheme(url).value;
    assert url == sp.before + sp.scheme + sp.rest;
  }

  /** The text after the penultimate dot of t. */
  function AfterPenultimateDot(t: string): (r: string)
    requires DotCount(t) >= 2
    ensures |r| < |t| && r == t[|t| - |r|..] && t[|t| - |r| - 1] == '.'
    ensures DotCount(r) == 1
    decreases |t|
  {
    assert DotCount(t) == DotCount(t[1..]) + (if t[0] == '.' then 1 else 0) by {
      DotCountSplit(t, 0, 1, |t|);
      DotCountAt(t, 0);
      assert t[0..|t|] == t && t[1..|t|] == t[1..];
    }
    if t[0] == '.' && DotCount(t[1..]) == 1 then t[1..]
    else
      var r := AfterPenultimateDot(t[1..]);
      assert t[1..][|t| - 1 - |r|..] == t[|t| - |r|..];
      r
  }

  /** A suffix of t that follows a dot and holds exactly one dot is the text
      after the penultimate dot. */
  lemma AfterPenultimateDotUnique(t: string, m: nat)
    requires 0 < m <= |t| && t[m - 1] == '.' && DotCount(t[m..]) == 1
    ensures DotCount(t) >= 2 && AfterPenultimateDot(t) == t[m..]
  {
    assert t[0..|t|] == t;
    assert t[m..|t|] == t[m..];
    DotCountSplit(t, 0, m - 1, |t|);
    DotCountSplit(t, m - 1, m, |t|);
    DotCountAt(t, m - 1);
    var r := AfterPenultimateDot(t);
    var n := |t| - |r|;
    assert t[n..|t|] == r;
    DotSuffixesDiffer(t, m, n);
  }

  /** Two suffixes of t that each follow a dot cannot both hold exactly one dot
      unless they are the same suffix. */
  lemma DotSuffixesDiffer(t: string, m: nat, n: nat)
    requires 0 < m <= |t| && 0 < n <= |t| && t[m - 1] == '.' && t[n - 1] == '.'
    requires DotCount(t[m..|t|]) == 1 && DotCount(t[n..|t|]) == 1
    ensures m == n
  {
    if m < n {
      DotsBeforeDot(t, m, n);
    } else if n < m {
      DotsBeforeDot(t, n, m);
    }
  }

  /** A suffix of t that starts before a dot holds more dots than the suffix
      after that dot. */
  lemma DotsBeforeDot(t: string, m: nat, n: nat)
    requires 0 < m < n <= |t| && t[n - 1] == '.'
    ensures DotCount(t[m..|t|]) > DotCount(t[n..|t|])
  {
    DotCountSplit(t, m, n - 1, |t|);
    DotCountSplit(t, n - 1, n, |t|);
    DotCountAt(t, n - 1);
  }

  /** What pass 1 leaves of the text after the scheme. */
  function StrippedRest(rest: string): (r: string)
    ensures DotCount(rest) >= 1 ==> DotCount(r) == 1
    ensures DotCount(rest) <= 1 ==> r == rest
    ensures |r| <= |rest| && r == rest[|rest| - |r|..]
    ensures DotCount(rest) >= 2 ==> |r| < |rest| && rest[|rest| - |r| - 1] == '.'
  {
    if DotCount(rest) >= 2 then AfterPenultimateDot(rest) else rest
  }

  /** Pass 1 stated on the url: after the first scheme, everything through
      the penultimate dot is deleted, dots in the path included; with fewer
      than two dots after the scheme, or no scheme, nothing changes. */
  function StripSpec(url: string): string {
    if SplitAtScheme(url).None? then url
    else
      var sp := SplitAtScheme(url).value;
      sp.before + sp.scheme + StrippedRest(sp.rest)
  }

  /** Pass 2 stated on the url: the subdomain and a dot right after the first
      scheme; without a scheme nothing changes. */
  function InsertSpec(url: string, subdomain: string): string {
    if SplitAtScheme(url).None? then url
    else
      var sp := SplitAtScheme(url).value;
      sp.before + sp.scheme + (subdomain + "." + sp.rest)
  }

  /* ---------------------------------------------------------------------- */
  /* The passes meet their statements                                        */
  /* ---------------------------------------------------------------------- */

  lemma LineEndNoNewline(s: string, i: nat)
    requires '\n' !in s && i <= |s|
    ensures LineEnd(s, i) == |s|
  {
  }

  lemma StripTemplate()
    ensures ParseTemplate("$1$3") == [Ref(1), Ref(3)]
  {
    assert "$1$3"[2..] == "$3";
    assert "$3"[2..] == [];
  }

  /** On a line without '\n', StripPattern matches at q exactly when a
      scheme starts at q and two dots or more follow it; group 3 then starts
      after the penultimate dot and the match ends after the last one. */
  lemma StripMatchAt(s: string, q: nat)
    requires '\n' !in s
    ensures MatchAt(StripPattern, s, q).Some? <==>
      SchemeEnd(s, q).Some? && DotCount(s[SchemeEnd(s, q).value..]) >= 2
    ensures MatchAt(StripPattern, s, q).Some? ==>
      var g := MatchAt(StripPattern, s, q).value;
      && g[1] == Span(q, SchemeEnd(s, q).value) && g[3].hi == g[0].hi
      && SchemeEnd(s, q).value < g[3].lo <= g[3].hi
      && s[g[3].lo - 1] == '.' && DotCount(s[g[3].lo..]) == 1
      && DotCount(s[g[0].hi..]) == 0
  {
    if SchemeEnd(s, q).Some? {
      var e := SchemeEnd(s, q).value;
      LineEndNoNewline(s, e);
      assert s[e..|s|] == s[e..];
      assert s[|s|..|s|] == [];
      Groups23Found(s, e, |s|, |s|);
      if Groups23(s, e, |s|, |s|).Some? {
        Groups23Ends(s, e, |s|, |s|);
        var (j, k) := Groups23(s, e, |s|, |s|).value;
        assert s[j..|s|] == s[j..];
        assert s[k..|s|] == s[k..];
      }
    }
  }

  lemma DotCountSuffix(s: string, a: nat, b: nat)
    requires a <= b <= |s|
    ensures DotCount(s[b..]) <= DotCount(s[a..])
  {
    assert s[a..|s|] == s[a..] && s[b..|s|] == s[b..];
    DotCountSplit(s, a, b, |s|);
  }

  lemma SubstituteStripTemplate(caps: seq<string>)
    requires |caps| == 4
    ensures Substitute([Ref(1), Ref(3)], caps) == caps[1] + caps[3]
  {
    assert [Ref(1), Ref(3)][1..] == [Ref(3)];
    SubstituteOne(Ref(3), caps);
  }

  /** Pass 1 changes nothing when no scheme is followed by two dots. */
  lemma StripPassNoMatch(url: string)
    requires '\n' !in url
    requires SplitAtScheme(url).Some? ==> DotCount(SplitAtScheme(url).value.rest) < 2
    ensures PregReplace(StripPattern, [Ref(1), Ref(3)], url) == url
  {
    forall q: nat ensures MatchAt(StripPattern, url, q).None? {
      StripMatchAt(url, q);
      if SchemeEnd(url, q).Some? {
        var sp := SplitAtScheme(url).value;
        var e := |sp.before| + |sp.scheme|;
        assert url[e..] == sp.rest;
        DotCountSuffix(url, e, SchemeEnd(url, q).value);
      }
    }
    ReplaceFromNoMatch(StripPattern, [Ref(1), Ref(3)], url, 0);
    assert url[0..] == url;
  }

  /** No match of pass 1 starts where no dot follows. */
  lemma StripNoMatchAfter(url: string, k: nat)
    requires '\n' !in url && k <= |url| && DotCount(url[k..]) == 0
    ensures forall q: nat :: k <= q ==> MatchAt(StripPattern, url, q).None?
  {
    forall q: nat | k <= q ensures MatchAt(StripPattern, url, q).None? {
      StripMatchAt(url, q);
      if SchemeEnd(url, q).Some? {
        DotCountSuffix(url, k, SchemeEnd(url, q).value);
      }
    }
  }

  /** The match of pass 1 at a scheme that two dots or more follow. */
  lemma StripMatchAtScheme(url: string, p: nat) returns (g: seq<Span>)
    requires '\n' !in url
    requires SchemeEnd(url, p).Some? && DotCount(url[SchemeEnd(url, p).value..]) >= 2
    ensures MatchAt(StripPattern, url, p) == Some(g) && |g| == 4 && g[1] == Span(p, SchemeEnd(url, p).value)
    ensures SchemeEnd(url, p).value < g[3].lo <= g[3].hi == g[0].hi <= |url|
    ensures url[g[3].lo - 1] == '.' && DotCount(url[g[3].lo..]) == 1 && DotCount(url[g[0].hi..]) == 0
  {
    StripMatchAt(url, p);
    g := MatchAt(StripPattern, url, p).value;
  }

  /** Pass 1 when that match is the first: the scheme and group 3 replace it,
      and the text around it is kept. */
  lemma StripPassReplaced(url: string, p: nat, e: nat, g: seq<Span>)
    requires '\n' !in url
    requires MatchAt(StripPattern, url, p) == Some(g) && |g| == 4 && g[1] == Span(p, e)
    requires e < g[3].lo <= g[3].hi == g[0].hi <= |url| && DotCount(url[g[0].hi..]) == 0
    requires forall q: nat :: q < p ==> MatchAt(StripPattern, url, q).None?
    ensures PregReplace(StripPattern, [Ref(1), Ref(3)], url) == url[..p] + url[p..e] + url[g[3].lo..]
  {
    var j, k := g[3].lo, g[0].hi;
    StripNoMatchAfter(url, k);
    PregReplaceOneMatch(StripPattern, [Ref(1), Ref(3)], url, p, g);
    var caps := Captures(url, g);
    assert caps[1] == url[p..e] && caps[3] == url[j..k];
    SubstituteStripTemplate(caps);
    Regroup(url, url[..p], url[p..e], j, k);
  }

  /** A step of string concatenation, split out to keep the solver's work small. */
  lemma Regroup(s: string, a: string, b: string, j: nat, k: nat)
    requires j <= k <= |s|
    ensures a + (b + s[j..k]) + s[k..] == a + b + s[j..]
  {
    assert s[j..k] + s[k..] == s[j..];
  }

  /** Pass 1 on a url whose first scheme, at p, two dots or more follow:
      group 3 starts after the penultimate dot of the text after the scheme. */
  lemma StripPassAt(url: string, p: nat)
    requires '\n' !in url
    requires SchemeEnd(url, p).Some? && DotCount(url[SchemeEnd(url, p).value..]) >= 2
    requires forall q: nat :: q < p ==> SchemeEnd(url, q).None?
    ensures var e := SchemeEnd(url, p).value;
      PregReplace(StripPattern, [Ref(1), Ref(3)], url) == url[..p] + url[p..e] + AfterPenultimateDot(url[e..])
  {
    var e := SchemeEnd(url, p).value;
    var g := StripMatchAtScheme(url, p);
    var j := g[3].lo;
    AfterPenultimateDotAt(url, e, j);
    assert url[j..] == AfterPenultimateDot(url[e..]);
    NoMatchBefore(StripPattern, url, p);
    StripPassReplaced(url, p, e, g);
    assert PregReplace(StripPattern, [Ref(1), Ref(3)], url) == url[..p] + url[p..e] + url[j..];
  }

  /** Without a scheme before p, no match starts before p. */
  lemma NoMatchBefore(pat: Pattern, url: string, p: nat)
    requires forall q: nat :: q < p ==> SchemeEnd(url, q).None?
    ensures forall q: nat :: q < p ==> MatchAt(pat, url, q).None?
  {
  }

  lemma StripPassOneMatch(url: string)
    requires '\n' !in url
    requires SplitAtScheme(url).Some? && DotCount(SplitAtScheme(url).value.rest) >= 2
    ensures var sp := SplitAtScheme(url).value;
      PregReplace(StripPattern, [Ref(1), Ref(3)], url) == sp.before + sp.scheme + AfterPenultimateDot(sp.rest)
  {
    SplitAtSchemeSlices(url);
    StripPassAt(url, |SplitAtScheme(url).value.before|);
  }

  /** AfterPenultimateDotUnique on a suffix of s. */
  lemma AfterPenultimateDotAt(s: string, e: nat, j: nat)
    requires e < j <= |s| && s[j - 1] == '.' && DotCount(s[j..]) == 1
    ensures DotCount(s[e..]) >= 2 && AfterPenultimateDot(s[e..]) == s[j..]
  {
    var t := s[e..];
    assert t[j - e..] == s[j..] && t[j - e - 1] == s[j - 1];
    AfterPenultimateDotUnique(t, j - e);
  }

  /** Pass 1 is StripSpec on every url without a newline. */
  lemma StripPassMeetsSpec(url: string)
    requires '\n' !in url
    ensures StripPass(url) == StripSpec(url)
  {
    StripTemplate();
    if SplitAtScheme(url).Some? && DotCount(SplitAtScheme(url).value.rest) >= 2 {
      StripPassOneMatch(url);
    } else {
      StripPassNoMatch(url);
    }
  }

  /** On a line without '\n', InsertPattern matches wherever a scheme starts,
      and takes the rest of the line as group 2. */
  lemma InsertMatchAt(s: string, q: nat)
    requires '\n' !in s
    ensures MatchAt(InsertPattern, s, q) ==
      if SchemeEnd(s, q).Some? then Some([Span(q, |s|), Span(q, SchemeEnd(s, q).value), Span(SchemeEnd(s, q).value, |s|)])
      else None
  {
    if SchemeEnd(s, q).Some? {
      LineEndNoNewline(s, SchemeEnd(s, q).value);
    }
  }

  /** Pass 2 with any template: one match, at the first scheme, whose
      captures are the scheme and the rest, and the text before it is kept. */
  lemma InsertPassWith(url: string, tmpl: seq<Piece>)
    requires '\n' !in url
    ensures SplitAtScheme(url).None? ==> PregReplace(InsertPattern, tmpl, url) == url
    ensures SplitAtScheme(url).Some? ==>
      var sp := SplitAtScheme(url).value;
      PregReplace(InsertPattern, tmpl, url) == sp.before + Substitute(tmpl, [sp.scheme + sp.rest, sp.scheme, sp.rest])
  {
    if SplitAtScheme(url).None? {
      forall q: nat ensures MatchAt(InsertPattern, url, q).None? {
        InsertMatchAt(url, q);
      }
      ReplaceFromNoMatch(InsertPattern, tmpl, url, 0);
      assert url[0..] == url;
    } else {
      var sp := SplitAtScheme(url).value;
      var p, e := |sp.before|, |sp.before| + |sp.scheme|;
      forall q: nat | q < p ensures MatchAt(InsertPattern, url, q).None? {
        InsertMatchAt(url, q);
      }
      InsertMatchAt(url, p);
      var g := [Span(p, |url|), Span(p, e), Span(e, |url|)];
      FirstMatchAt(InsertPattern, url, 0, p);
      ReplaceFromMatch(InsertPattern, tmpl, url, 0, g);
      ReplaceFromNoMatch(InsertPattern, tmpl, url, |url|);
      assert url[0..p] == sp.before;
      assert url[p..e] == sp.scheme && url[e..|url|] == sp.rest;
      assert url[p..|url|] == sp.scheme + sp.rest;
      var caps := Captures(url, g);
      assert |caps| == 3 && caps[0] == url[p..|url|] && caps[1] == url[p..e] && caps[2] == url[e..|url|];
      assert caps == [sp.scheme + sp.rest, sp.scheme, sp.rest];
    }
  }

  /** The insert template spells group n (or nothing), the literal text, a
      dot and group 2 ... */
  lemma SubstituteRefTemplate(n: nat, w: string, caps: seq<string>)
    requires |caps| == 3
    ensures Substitute([Ref(n)] + Lits(w) + [Lit('.'), Ref(2)], caps) == PieceText(Ref(n), caps) + w + "." + caps[2]
  {
    var head, tail := [Ref(n)] + Lits(w), [Lit('.'), Ref(2)];
    var x := PieceText(Ref(n), caps);
    assert Substitute(head, caps) == x + w by {
      SubstituteAppend([Ref(n)], Lits(w), caps);
      SubstituteLits(w, caps);
      SubstituteOne(Ref(n), caps);
    }
    assert Substitute(tail, caps) == "." + caps[2] by {
      SubstituteDotGroup2(caps);
    }
    SubstituteAppend(head, tail, caps);
    assert (x + w) + ("." + caps[2]) == x + w + "." + caps[2];
  }

  /** ... so with a group the match has, its text comes first ... */
  lemma SubstituteInsertTemplate(n: nat, w: string, caps: seq<string>)
    requires |caps| == 3 && n < 3
    ensures Substitute([Ref(n)] + Lits(w) + [Lit('.'), Ref(2)], caps) == caps[n] + w + "." + caps[2]
  {
    SubstituteRefTemplate(n, w, caps);
  }

  /** ... and a group the match does not have spells nothing. */
  lemma SubstituteInsertTemplateMissing(n: nat, w: string, caps: seq<string>)
    requires |caps| == 3 && n >= 3
    ensures Substitute([Ref(n)] + Lits(w) + [Lit('.'), Ref(2)], caps) == w + "." + caps[2]
  {
    SubstituteRefTemplate(n, w, caps);
    assert PieceText(Ref(n), caps) == [];
    assert [] + w + "." + caps[2] == w + "." + caps[2];
  }

  lemma SubstituteDotGroup2(caps: seq<string>)
    requires |caps| == 3
    ensures Substitute([Lit('.'), Ref(2)], caps) == "." + caps[2]
  {
    assert [Lit('.'), Ref(2)][1..] == [Ref(2)];
    SubstituteOne(Ref(2), caps);
  }

  /** A step of string concatenation, split out to keep the solver's work small. */
  lemma RegroupInsert(a: string, b: string, c: string, d: string)
    ensures a + (b + c + "." + d) == a + b + (c + "." + d)
  {
  }

  /** Pass 2 lengthens a url with a scheme by the subdomain and one dot and
      leaves a url without one alone. */
  lemma InsertPassLength(url: string, subdomain: string)
    requires '\n' !in url
    ensures SplitAtScheme(url).Some? ==> |InsertPass(url, subdomain)| == |url| + |subdomain| + 1
    ensures SplitAtScheme(url).None? ==> InsertPass(url, subdomain) == url
  {
    InsertPassMeetsSpec(url, subdomain);
  }

  /** Pass 2 is InsertSpec on every url without a newline. */
  lemma InsertPassMeetsSpec(url: string, subdomain: string)
    requires '\n' !in url
    ensures InsertPass(url, subdomain) == InsertSpec(url, subdomain)
  {
    InsertPassWith(url, [Ref(1)] + Lits(subdomain) + [Lit('.'), Ref(2)]);
    if SplitAtScheme(url).Some? {
      var sp := SplitAtScheme(url).value;
      var caps := [sp.scheme + sp.rest, sp.scheme, sp.rest];
      SubstituteInsertTemplate(1, subdomain, caps);
      assert caps[1] == sp.scheme && caps[2] == sp.rest;
      RegroupInsert(sp.before, sp.scheme, subdomain, sp.rest);
    }
  }

  lemma ParseTemplateTail()
    ensures ParseTemplate(".$2") == [Lit('.'), Ref(2)]
  {
    assert ".$2"[1..] == "$2";
    assert "$2"[2..] == [];
  }

  /** The head of the interpolated template when the subdomain starts with a
      digit d: PHP reads "$1d" as one two-digit reference. */
  lemma InsertTemplateDigitHead(subdomain: string, t: string)
    requires '$' !in subdomain && '\\' !in subdomain
    requires |subdomain| > 0 && IsDigit(subdomain[0])
    requires t == "$1" + subdomain + ".$2"
    ensures '\\' !in t && |t| >= 3 && t[0] == '$'
    ensures ReadBackRef(t) == Some((10 + DigitValue(subdomain[0]), 3))
    ensures t[3..] == subdomain[1..] + ".$2"
  {
    assert '\\' !in t;
    var d := subdomain[0];
    assert t[0] == '$' && t[1] == '1' && t[2] == d;
    assert DigitValue(t[1]) == 1;
    ReadBackRefTwoDigits(t);
    assert 10 * DigitValue(t[1]) + DigitValue(t[2]) == 10 + DigitValue(d);
    assert t[3..] == subdomain[1..] + ".$2";
  }

  /** The head of the interpolated template otherwise: "$1" is a reference
      to group 1. */
  lemma InsertTemplatePlainHead(subdomain: string, t: string)
    requires '$' !in subdomain && '\\' !in subdomain
    requires !(|subdomain| > 0 && IsDigit(subdomain[0]))
    requires t == "$1" + subdomain + ".$2"
    ensures '\\' !in t && |t| >= 3 && t[0] == '$'
    ensures ReadBackRef(t) == Some((1, 2))
    ensures t[2..] == subdomain + ".$2"
  {
    assert '\\' !in t;
    assert t[0] == '$' && t[1] == '1';
    assert !IsDigit(t[2]) by {
      if |subdomain| > 0 { assert t[2] == subdomain[0]; } else { assert t[2] == '.'; }
    }
    ReadBackRefOneDigit(t);
    assert t[2..] == subdomain + ".$2";
  }

  /** How PHP reads the template of line 100 once a subdomain that starts
      with a digit d (and holds no '$' and no backslash) is interpolated:
      "$1d" is one reference, to group 1d. */
  lemma ParseInsertTemplateDigit(subdomain: string)
    requires '$' !in subdomain && '\\' !in subdomain
    requires |subdomain| > 0 && IsDigit(subdomain[0])
    ensures ParseTemplate("$1" + subdomain + ".$2") ==
      [Ref(10 + DigitValue(subdomain[0]))] + Lits(subdomain[1..]) + [Lit('.'), Ref(2)]
  {
    var t := "$1" + subdomain + ".$2";
    InsertTemplateDigitHead(subdomain, t);
    ParseTemplateTail();
    assert forall c :: c in subdomain[1..] ==> c in subdomain;
    ParseRefThenText(t, 10 + DigitValue(subdomain[0]), 3, subdomain[1..], ".$2");
  }

  /** The same template when the subdomain does not start with a digit: group
      1, the subdomain as literal text, a dot, group 2. */
  lemma ParseInsertTemplatePlain(subdomain: string)
    requires '$' !in subdomain && '\\' !in subdomain
    requires !(|subdomain| > 0 && IsDigit(subdomain[0]))
    ensures ParseTemplate("$1" + subdomain + ".$2") ==
      [Ref(1)] + Lits(subdomain) + [Lit('.'), Ref(2)]
  {
    var t := "$1" + subdomain + ".$2";
    InsertTemplatePlainHead(subdomain, t);
    ParseTemplateTail();
    ParseRefThenText(t, 1, 2, subdomain, ".$2");
  }

  /** Pass 2 as written agrees with the intended pass whenever the subdomain
      does not start with a digit (and holds no '$' or backslash). */
  lemma InsertPassAsWrittenAgrees(url: string, subdomain: string)
    requires '$' !in subdomain && '\\' !in subdomain
    requires !(|subdomain| > 0 && IsDigit(subdomain[0]))
    ensures InsertPassAsWritten(url, subdomain) == InsertPass(url, subdomain)
  {
    ParseInsertTemplatePlain(subdomain);
  }

  lemma InsertPassAsWrittenDigit(url: string, subdomain: string)
    requires '$' !in subdomain && '\\' !in subdomain
    requires |subdomain| > 0 && IsDigit(subdomain[0])
    ensures InsertPassAsWritten(url, subdomain) == PregReplace(InsertPattern, DigitTemplate(subdomain), url)
  {
    ParseInsertTemplateDigit(subdomain);
  }

  /** The template PHP reads from line 100 when the subdomain starts with a
      digit: a reference to the missing group 1d, the rest of the subdomain,
      a dot and group 2. */
  function DigitTemplate(subdomain: string): seq<Piece>
    requires |subdomain| > 0 && IsDigit(subdomain[0])
  {
    [Ref(10 + DigitValue(subdomain[0]))] + Lits(subdomain[1..]) + [Lit('.'), Ref(2)]
  }

  lemma DigitTemplateDropsScheme(url: string, subdomain: string)
    requires '\n' !in url
    requires |subdomain| > 0 && IsDigit(subdomain[0])
    ensures SplitAtScheme(url).None? ==> PregReplace(InsertPattern, DigitTemplate(subdomain), url) == url
    ensures SplitAtScheme(url).Some? ==>
      var sp := SplitAtScheme(url).value;
      PregReplace(InsertPattern, DigitTemplate(subdomain), url) == sp.before + (subdomain[1..] + "." + sp.rest)
  {
    InsertPassWith(url, DigitTemplate(subdomain));
    if SplitAtScheme(url).Some? {
      var sp := SplitAtScheme(url).value;
      var caps := [sp.scheme + sp.rest, sp.scheme, sp.rest];
      SubstituteInsertTemplateMissing(10 + DigitValue(subdomain[0]), subdomain[1..], caps);
      assert caps[2] == sp.rest;
    }
  }

  /** Pass 2 as written, with a subdomain that starts with a digit d: PHP reads
      "$1d" as a reference to group 1d, which the pattern does not have, so the
      scheme and the digit are lost. */
  lemma InsertPassAsWrittenDropsScheme(url: string, subdomain: string)
    requires '\n' !in url
    requires '$' !in subdomain && '\\' !in subdomain
    requires |subdomain| > 0 && IsDigit(subdomain[0])
    ensures SplitAtScheme(url).None? ==> InsertPassAsWritten(url, subdomain) == url
    ensures SplitAtScheme(url).Some? ==>
      var sp := SplitAtScheme(url).value;
      InsertPassAsWritten(url, subdomain) == sp.before + (subdomain[1..] + "." + sp.rest)
  {
    InsertPassAsWrittenDigit(url, subdomain);
    DigitTemplateDropsScheme(url, subdomain);
  }

  /** Pass 2 as written, for a url already cut at its scheme. */
  lemma InsertPassAsWrittenAt(url: string, subdomain: string, before: string, scheme: string, rest: string)
    requires '\n' !in url && SplitAtScheme(url) == Some(SchemeSplit(before, scheme, rest))
    requires '$' !in subdomain && '\\' !in subdomain
    requires |subdomain| > 0 && IsDigit(subdomain[0])
    ensures InsertPassAsWritten(url, subdomain) == before + (subdomain[1..] + "." + rest)
  {
    InsertPassAsWrittenDropsScheme(url, subdomain);
  }

  /** Pass 2 as intended, for a url already cut at its scheme. */
  lemma InsertPassAt(url: string, subdomain: string, before: string, scheme: string, rest: string)
    requires '\n' !in url && SplitAtScheme(url) == Some(SchemeSplit(before, scheme, rest))
    ensures InsertPass(url, subdomain) == before + scheme + (subdomain + "." + rest)
  {
    InsertPassMeetsSpec(url, subdomain);
  }

  /** The input that shows it: amOnSubdomain("2fa") on http://example.com
      yields "fa.example.com" as written ... */
  lemma InsertPassAsWrittenExample(url: string, host: string, subdomain: string)
    requires url == "http://" + host && '\n' !in host && subdomain == "2fa"
    ensures InsertPassAsWritten(url, subdomain) == "fa." + host
  {
    SplitExample(url, host);
    assert subdomain[1..] == "fa";
    InsertPassAsWrittenAt(url, subdomain, "", "http://", host);
    assert "" + ("fa" + "." + host) == "fa." + host;
  }

  /** ... where "http://2fa.example.com" is intended, which the corrected
      pass yields. */
  lemma InsertPassExample(url: string, host: string, subdomain: string)
    requires url == "http://" + host && '\n' !in host && subdomain == "2fa"
    ensures InsertPass(url, subdomain) == "http://2fa." + host
  {
    SplitExample(url, host);
    InsertPassAt(url, subdomain, "", "http://", host);
    ExampleText(subdomain, host);
  }

  /** A step of string concatenation, split out to keep the solver's work small. */
  lemma ExampleText(subdomain: string, host: string)
    requires subdomain == "2fa"
    ensures "" + "http://" + (subdomain + "." + host) == "http://2fa." + host
  {
    assert subdomain + "." + host == "2fa." + host;
  }

  /* ---------------------------------------------------------------------- */
  /* The rewrite                                                             */
  /* ---------------------------------------------------------------------- */

  lemma FindSchemeAt(s: string, from: nat, p: nat)
    requires from <= p && SchemeEnd(s, p).Some?
    requires forall q: nat :: from <= q < p ==> SchemeEnd(s, q).None?
    ensures FindScheme(s, from) == Some(p)
  {
  }

  lemma SchemeEndSamePrefix(s: string, s': string, q: nat, n: nat)
    requires q + 8 <= n <= |s| && n <= |s'| && s[..n] == s'[..n]
    ensures SchemeEnd(s, q) == SchemeEnd(s', q)
  {
    assert s[q..q + 8] == s[..n][q..q + 8] == s'[..n][q..q + 8] == s'[q..q + 8];
    assert s[q..q + 7] == s[..n][q..q + 7] == s'[..n][q..q + 7] == s'[q..q + 7];
  }

  /** A scheme found at i is found at i in any string with the same text there. */
  lemma SchemeEndSameAt(s: string, s': string, i: nat, e: nat)
    requires SchemeEnd(s, i) == Some(e) && e <= |s'| && s[i..e] == s'[i..e]
    ensures SchemeEnd(s', i) == Some(e)
  {
    if e == i + 7 {
      assert !StartsWithAt(s', i, "https://") by {
        assert s'[i + 4] == s'[i..e][4] == ':';
      }
    }
  }

  /** Whatever follows the first scheme, the scheme stays the first one. */
  lemma SplitAtSchemeStable(url: string, x: string)
    requires SplitAtScheme(url).Some?
    ensures var sp := SplitAtScheme(url).value;
      SplitAtScheme(sp.before + sp.scheme + x) == Some(SchemeSplit(sp.before, sp.scheme, x))
  {
    var SchemeSplit(b, sc, t) := SplitAtScheme(url).value;
    var u := b + sc + x;
    var n := |b| + |sc|;
    assert u[..n] == b + sc == url[..n];
    forall q: nat | q < |b| ensures SchemeEnd(u, q).None? {
      SchemeEndSamePrefix(url, u, q, n);
    }
    assert u[|b|..n] == sc == url[|b|..n];
    SchemeEndSameAt(url, u, |b|, n);
    FindSchemeAt(u, 0, |b|);
    assert u[..|b|] == b && u[n..] == x;
  }

  /** The rewrite stated on the url: the subdomain and a dot after the first
      scheme, followed by what pass 1 leaves of the rest. */
  lemma RewriteShape(url: string, subdomain: string)
    requires '\n' !in url
    ensures SplitAtScheme(url).None? ==> Rewrite(url, subdomain) == url
    ensures SplitAtScheme(url).Some? ==>
      var sp := SplitAtScheme(url).value;
      Rewrite(url, subdomain) == sp.before + sp.scheme + (subdomain + "." + StrippedRest(sp.rest))
  {
    StripPassMeetsSpec(url);
    if SplitAtScheme(url).None? {
      InsertPassMeetsSpec(url, subdomain);
    } else {
      var SchemeSplit(b, sc, t) := SplitAtScheme(url).value;
      var r := StrippedRest(t);
      SplitAtSchemeSlices(url);
      NoNewlineInSuffix(t, r);
      RewrittenSplit(url, b, sc, t, r);
      InsertPassMeetsSpec(b + sc + r, subdomain);
    }
  }

  /** RewriteShape for a url whose split is given. */
  lemma RewriteSplit(url: string, subdomain: string, before: string, scheme: string, rest: string)
    requires '\n' !in url
    requires SplitAtScheme(url) == Some(SchemeSplit(before, scheme, rest))
    ensures Rewrite(url, subdomain) == before + scheme + (subdomain + "." + StrippedRest(rest))
  {
    RewriteShape(url, subdomain);
  }

  /** Line 101 receives the intended url whenever the subdomain does not
      start with a digit. */
  lemma RewriteAsWrittenAgrees(url: string, subdomain: string)
    requires '$' !in subdomain && '\\' !in subdomain
    requires !(|subdomain| > 0 && IsDigit(subdomain[0]))
    ensures RewriteAsWritten(url, subdomain) == Rewrite(url, subdomain)
  {
    InsertPassAsWrittenAgrees(StripPass(url), subdomain);
  }

  /** With a subdomain that starts with a digit, the url line 101 receives
      has lost the scheme and the digit. */
  lemma RewriteAsWrittenDigit(url: string, subdomain: string, before: string, scheme: string, rest: string)
    requires '\n' !in url
    requires SplitAtScheme(url) == Some(SchemeSplit(before, scheme, rest))
    requires '$' !in subdomain && '\\' !in subdomain
    requires |subdomain| > 0 && IsDigit(subdomain[0])
    ensures RewriteAsWritten(url, subdomain) == before + (subdomain[1..] + "." + StrippedRest(rest))
  {
    StripPassMeetsSpec(url);
    var r := StrippedRest(rest);
    SplitAtSchemeSlices(url);
    NoNewlineInSuffix(rest, r);
    RewrittenSplit(url, before, scheme, rest, r);
    InsertPassAsWrittenAt(before + scheme + r, subdomain, before, scheme, r);
  }

  /** The url after one rewrite: still split at the same scheme, and still
      without a newline. */
  lemma RewrittenSplit(url: string, before: string, scheme: string, rest: string, y: string)
    requires '\n' !in url && '\n' !in y
    requires SplitAtScheme(url) == Some(SchemeSplit(before, scheme, rest))
    ensures SplitAtScheme(before + scheme + y) == Some(SchemeSplit(before, scheme, y))
    ensures '\n' !in before + scheme + y
  {
    SplitAtSchemeStable(url, y);
    assert url == before + scheme + rest;
    assert forall c :: c in before + scheme ==> c in url;
  }

  /** A subdomain and a dot in front of a text with one dot: pass 1 removes
      them again. */
  lemma StrippedRestPrefixed(subdomain: string, t: string)
    requires DotCount(t) == 1
    ensures StrippedRest(subdomain + "." + t) == t
  {
    var y := subdomain + "." + t;
    assert y[|subdomain| + 1..] == t && y[|subdomain|] == '.';
    AfterPenultimateDotUnique(y, |subdomain| + 1);
  }

  /** A dotless subdomain and a dot in front of a dotless text: one dot, so
      pass 1 keeps it all. */
  lemma StrippedRestOneDot(subdomain: string, t: string)
    requires DotCount(subdomain) == 0 && DotCount(t) == 0
    ensures StrippedRest(subdomain + "." + t) == subdomain + "." + t
  {
    DotCountAppend(subdomain, ".");
    DotCountAppend(subdomain + ".", t);
    assert DotCount(".") == 1 by {
      assert "."[..0] == [];
    }
  }

  lemma NoNewlineInSuffix(t: string, r: string)
    requires '\n' !in t && |r| <= |t| && r == t[|t| - |r|..]
    ensures '\n' !in r
  {
    assert forall c :: c in r ==> c in t;
  }

  /** A subdomain in front of a one-dot domain is replaced: with scheme
      http:// (see SplitExample), http://www.example.com becomes
      http://api.example.com. */
  lemma RewriteReplacesSubdomain(url: string, subdomain: string, before: string, scheme: string, current: string, domain: string)
    requires '\n' !in url
    requires SplitAtScheme(url) == Some(SchemeSplit(before, scheme, current + "." + domain))
    requires DotCount(domain) == 1
    ensures Rewrite(url, subdomain) == before + scheme + (subdomain + "." + domain)
  {
    RewriteSplit(url, subdomain, before, scheme, current + "." + domain);
    StrippedRestPrefixed(current, domain);
  }

  /** A bare one-dot domain gains the subdomain: http://example.com becomes
      http://api.example.com. */
  lemma RewriteAddsSubdomain(url: string, subdomain: string, before: string, scheme: string, domain: string)
    requires '\n' !in url
    requires SplitAtScheme(url) == Some(SchemeSplit(before, scheme, domain))
    requires DotCount(domain) == 1
    ensures Rewrite(url, subdomain) == before + scheme + (subdomain + "." + domain)
  {
    RewriteSplit(url, subdomain, before, scheme, domain);
  }

  /** When the url's host (or path) holds a dot, rewriting again with the same
      subdomain changes nothing. */
  lemma RewriteIdempotent(url: string, subdomain: string)
    requires '\n' !in url && '\n' !in subdomain
    requires SplitAtScheme(url).Some? ==> DotCount(SplitAtScheme(url).value.rest) >= 1
    ensures Rewrite(Rewrite(url, subdomain), subdomain) == Rewrite(url, subdomain)
  {
    if SplitAtScheme(url).None? {
      RewriteShape(url, subdomain);
    } else {
      var SchemeSplit(b, sc, t) := SplitAtScheme(url).value;
      SplitAtSchemeSlices(url);
      var t' := StrippedRest(t);
      NoNewlineInSuffix(t, t');
      var y := subdomain + "." + t';
      RewriteSplit(url, subdomain, b, sc, t);
      RewrittenSplit(url, b, sc, t, y);
      RewriteSplit(b + sc + y, subdomain, b, sc, y);
      StrippedRestPrefixed(subdomain, t');
    }
  }

  /** With a dotless host and a dotless subdomain the rewrite is not
      idempotent: labels accumulate. */
  lemma RewriteAccumulates(url: string, subdomain: string, before: string, scheme: string, rest: string)
    requires '\n' !in url && '\n' !in subdomain
    requires SplitAtScheme(url) == Some(SchemeSplit(before, scheme, rest))
    requires DotCount(rest) == 0 && DotCount(subdomain) == 0
    ensures Rewrite(url, subdomain) == before + scheme + (subdomain + "." + rest)
    ensures Rewrite(Rewrite(url, subdomain), subdomain) == before + scheme + (subdomain + "." + (subdomain + "." + rest))
  {
    SplitAtSchemeSlices(url);
    NoNewlineInSuffix(url, rest);
    var y := subdomain + "." + rest;
    RewriteSplit(url, subdomain, before, scheme, rest);
    assert StrippedRest(rest) == rest;
    RewrittenSplit(url, before, scheme, rest, y);
    RewriteSplit(before + scheme + y, subdomain, before, scheme, y);
    StrippedRestOneDot(subdomain, rest);
  }

  /* ---------------------------------------------------------------------- */
  /* Examples                                                                */
  /* ---------------------------------------------------------------------- */

  /** A url that starts with "http://" splits there. */
  lemma SplitExample(url: string, rest: string)
    requires url == "http://" + rest && '\n' !in rest
    ensures '\n' !in url && SplitAtScheme(url) == Some(SchemeSplit("", "http://", rest))
  {
    assert url[4] == ':';
    assert url[0..7] == "http://";
    assert SchemeEnd(url, 0) == Some(7);
    FindSchemeAt(url, 0, 0);
    assert url[..0] == "" && url[0..7] == "http://" && url[7..] == rest;
  }
}
