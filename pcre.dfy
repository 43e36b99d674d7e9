/**
 * The part of PHP's preg_replace that amOnSubdomain relies on, for its two
 * fixed patterns only:
 *
 *   StripPattern   ~(https?:\/\/)(.*\.)(.*\.)~   (PhpBrowser.php line 99)
 *   InsertPattern  ~(https?:\/\/)(.*)~           (PhpBrowser.php line 100)
 *
 * Matching is leftmost-first with PCRE's backtracking order for the greedy
 * groups; `.` matches every character except '\n'. Replacement is global: the
 * search resumes where the previous match ended. A replacement template is
 * read the way PHP reads it ($n, $nn, ${n}, ${nn}) into literal characters and
 * group references, and then substituted.
 */
module Pcre {
  import opened Wrappers

  /* ---------------------------------------------------------------------- */
  /* Counting dots                                                           */
  /* ---------------------------------------------------------------------- */

  /** Number of '.' characters in t. */
  function DotCount(t: string): nat {
    if t == [] then 0 else DotCount(t[..|t| - 1]) + (if t[|t| - 1] == '.' then 1 else 0)
  }

  lemma {:induction false} DotCountAppend(a: string, b: string)
    ensures DotCount(a + b) == DotCount(a) + DotCount(b)
    decreases |b|
  {
    if b == [] {
      assert a + b == a;
    } else {
      assert (a + b)[..|a + b| - 1] == a + b[..|b| - 1];
      DotCountAppend(a, b[..|b| - 1]);
    }
  }

  lemma DotCountSplit(s: string, a: nat, b: nat, c: nat)
    requires a <= b <= c <= |s|
    ensures DotCount(s[a..c]) == DotCount(s[a..b]) + DotCount(s[b..c])
  {
    assert s[a..c] == s[a..b] + s[b..c];
    DotCountAppend(s[a..b], s[b..c]);
  }

  lemma DotCountAt(s: string, a: nat)
    requires a < |s|
    ensures DotCount(s[a..a + 1]) == if s[a] == '.' then 1 else 0
  {
    assert s[a..a + 1] == [s[a]];
  }

  /* ---------------------------------------------------------------------- */
  /* Matching                                                                */
  /* ---------------------------------------------------------------------- */

  datatype Pattern = StripPattern | InsertPattern

  /** A capture: the characters s[lo..hi]. */
  datatype Span = Span(lo: nat, hi: nat)

  /** Group 0 is the whole match; the patterns have 3 and 2 groups of their own. */
  function GroupCount(pat: Pattern): nat {
    match pat
    case StripPattern => 4
    case InsertPattern => 3
  }

  predicate SpansIn(s: string, g: seq<Span>) {
    forall n :: 0 <= n < |g| ==> g[n].lo <= g[n].hi <= |s|
  }

  predicate StartsWithAt(s: string, i: nat, w: string) {
    i + |w| <= |s| && s[i..i + |w|] == w
  }

  /** `https?:\/\/` at position i: the end of the scheme. The optional `s` is
      tried first; leaving it out cannot succeed when it is present, because
      "://" would then have to match at the 's'. */
  function SchemeEnd(s: string, i: nat): (r: Option<nat>)
    ensures r.Some? ==> r.value <= |s|
    ensures r.Some? ==> (r.value == i + 7 && s[i..r.value] == "http://") || (r.value == i + 8 && s[i..r.value] == "https://")
    ensures r.None? <==> !StartsWithAt(s, i, "http://") && !StartsWithAt(s, i, "https://")
  {
    if StartsWithAt(s, i, "https://") then Some(i + 8)
    else if StartsWithAt(s, i, "http://") then Some(i + 7)
    else None
  }

  /** Where `.*` starting at i has to stop: the first '\n' at or after i, or the end. */
  function LineEnd(s: string, i: nat): (r: nat)
    requires i <= |s|
    ensures i <= r <= |s| && (r < |s| ==> s[r] == '\n')
    ensures forall k :: i <= k < r ==> s[k] != '\n'
    decreases |s| - i
  {
    if i == |s| || s[i] == '\n' then i else LineEnd(s, i + 1)
  }

  /** Greedy `.*\.` run over s[lo..hi]: backtracking from hi, the first end
      whose last character is a '.'; that is, the end of the last dot. */
  function LastDotEnd(s: string, lo: nat, hi: nat): (r: Option<nat>)
    requires lo <= hi <= |s|
    ensures r.Some? <==> DotCount(s[lo..hi]) >= 1
    ensures r.Some? ==> lo < r.value <= hi && s[r.value - 1] == '.' && DotCount(s[r.value..hi]) == 0
    decreases hi
  {
    if hi == lo then None
    else
      DotCountSplit(s, lo, hi - 1, hi);
      DotCountAt(s, hi - 1);
      if s[hi - 1] == '.' then Some(hi)
      else
        var r := LastDotEnd(s, lo, hi - 1);
        if r.Some? then DotCountSplit(s, r.value, hi - 1, hi); r else r
  }

  /** Groups 2 and 3 of StripPattern after a scheme ending at e, on a line
      ending at L. Group 2, a greedy `(.*\.)`, tries the ends j, j - 1, ...,
      e + 1 in turn; an end is kept as soon as group 3, another greedy
      `(.*\.)`, matches after it. The result holds the ends of groups 2 and 3.
      Started from j == L, group 2 ends at the penultimate dot of s[e..L] and
      group 3 at the last one. */
  function Groups23(s: string, e: nat, j: nat, L: nat): (r: Option<(nat, nat)>)
    requires e <= j <= L <= |s|
    ensures r.Some? ==> e < r.value.0 <= j && r.value.0 < r.value.1 <= L
    decreases j
  {
    if j == e then None
    else if s[j - 1] == '.' && LastDotEnd(s, j, L).Some? then Some((j, LastDotEnd(s, j, L).value))
    else Groups23(s, e, j - 1, L)
  }

  /** While at most one dot lies between j and the line end, groups 2 and 3
      match exactly when s[e..L] holds two dots or more. */
  lemma {:induction false} Groups23Found(s: string, e: nat, j: nat, L: nat)
    requires e <= j <= L <= |s| && DotCount(s[j..L]) <= 1
    ensures Groups23(s, e, j, L).Some? <==> DotCount(s[e..L]) >= 2
    decreases j
  {
    if j > e {
      DotCountSplit(s, j - 1, j, L);
      DotCountAt(s, j - 1);
      if s[j - 1] == '.' && LastDotEnd(s, j, L).Some? {
        DotCountSplit(s, e, j - 1, L);
      } else {
        Groups23Found(s, e, j - 1, L);
      }
    }
  }

  /** ... and when they match, group 2 ends at the penultimate dot of s[e..L]
      and group 3 at the last one. */
  lemma {:induction false} Groups23Ends(s: string, e: nat, j: nat, L: nat)
    requires e <= j <= L <= |s| && DotCount(s[j..L]) <= 1
    requires Groups23(s, e, j, L).Some?
    ensures var g := Groups23(s, e, j, L).value.0;
      s[g - 1] == '.' && DotCount(s[g..L]) == 1
    ensures var k := Groups23(s, e, j, L).value.1;
      s[k - 1] == '.' && DotCount(s[k..L]) == 0
    decreases j
  {
    if !(s[j - 1] == '.' && LastDotEnd(s, j, L).Some?) {
      assert DotCount(s[j - 1..L]) <= 1 by {
        DotCountSplit(s, j - 1, j, L);
        DotCountAt(s, j - 1);
      }
      Groups23Ends(s, e, j - 1, L);
    }
  }

  /** The match of pat that starts at position i, if any, as its group spans. */
  function MatchAt(pat: Pattern, s: string, i: nat): (r: Option<seq<Span>>)
    ensures r.Some? ==> |r.value| == GroupCount(pat) && SpansIn(s, r.value) && r.value[0].lo == i < r.value[0].hi
    ensures r.Some? ==> SchemeEnd(s, i).Some?
  {
    match SchemeEnd(s, i)
    case None => None
    case Some(e) =>
      var L := LineEnd(s, e);
      match pat
      case InsertPattern => Some([Span(i, L), Span(i, e), Span(e, L)])
      case StripPattern =>
        match Groups23(s, e, L, L)
        case None => None
        case Some((j, k)) => Some([Span(i, k), Span(i, e), Span(e, j), Span(j, k)])
  }

  /** The leftmost match of pat that starts at or after from. */
  function FirstMatch(pat: Pattern, s: string, from: nat): (r: Option<seq<Span>>)
    ensures r.Some? ==> |r.value| == GroupCount(pat) && SpansIn(s, r.value)
    ensures r.Some? ==> from <= r.value[0].lo < r.value[0].hi && MatchAt(pat, s, r.value[0].lo) == r
    decreases |s| - from
  {
    if from >= |s| then None
    else if MatchAt(pat, s, from).Some? then MatchAt(pat, s, from)
    else FirstMatch(pat, s, from + 1)
  }

  /** The leftmost match found by FirstMatch is the one at p when p matches and
      nothing between from and p does. */
  lemma {:induction false} FirstMatchAt(pat: Pattern, s: string, from: nat, p: nat)
    requires from <= p && MatchAt(pat, s, p).Some?
    requires forall q :: from <= q < p ==> MatchAt(pat, s, q).None?
    ensures FirstMatch(pat, s, from) == MatchAt(pat, s, p)
    decreases p - from
  {
    if from < p {
      assert MatchAt(pat, s, from).None?;
      FirstMatchAt(pat, s, from + 1, p);
    }
  }

  /** FirstMatch finds nothing when no position at or after from matches. */
  lemma {:induction false} FirstMatchNone(pat: Pattern, s: string, from: nat)
    requires forall q :: from <= q ==> MatchAt(pat, s, q).None?
    ensures FirstMatch(pat, s, from).None?
    decreases |s| - from
  {
    if from < |s| {
      assert MatchAt(pat, s, from).None?;
      FirstMatchNone(pat, s, from + 1);
    }
  }

  /* ---------------------------------------------------------------------- */
  /* Replacement templates                                                   */
  /* ---------------------------------------------------------------------- */

  /** One piece of a replacement template once PHP has read it. */
  datatype Piece = Lit(c: char) | Ref(group: nat)

  predicate IsDigit(c: char) {
    '0' <= c <= '9'
  }

  function DigitValue(c: char): nat
    requires IsDigit(c)
  {
    (c as int - '0' as int) as nat
  }

  /** PHP's reading of a back reference at the head of t, which starts with
      '$': one or two digits, optionally inside braces. The result is the
      group number and the number of characters read. */
  function ReadBackRef(t: string): (r: Option<(nat, nat)>)
    requires |t| >= 2 && t[0] == '$'
    ensures r.Some? ==> 2 <= r.value.1 <= |t| && r.value.0 < 100
  {
    var brace := t[1] == '{';
    var i := if brace then 2 else 1;
    if i < |t| && IsDigit(t[i]) then
      var two := i + 1 < |t| && IsDigit(t[i + 1]);
      var n := if two then 10 * DigitValue(t[i]) + DigitValue(t[i + 1]) else DigitValue(t[i]);
      var j := if two then i + 2 else i + 1;
      if !brace then Some((n, j))
      else if j < |t| && t[j] == '}' then Some((n, j + 1))
      else None
    else None
  }

  /** A replacement template as PHP reads it. A '$' that does not start a back
      reference is an ordinary character. Backslash references and escapes are
      not modelled, so the template holds no backslash. */
  function ParseTemplate(t: string): seq<Piece>
    requires '\\' !in t
    decreases |t|
  {
    if t == [] then []
    else if t[0] == '$' && |t| >= 2 && ReadBackRef(t).Some? then
      [Ref(ReadBackRef(t).value.0)] + ParseTemplate(t[ReadBackRef(t).value.1..])
    else [Lit(t[0])] + ParseTemplate(t[1..])
  }

  /** "$d" followed by a non-digit is a reference to group d. */
  lemma ReadBackRefOneDigit(t: string)
    requires |t| >= 3 && t[0] == '$' && IsDigit(t[1]) && !IsDigit(t[2])
    ensures ReadBackRef(t) == Some((DigitValue(t[1]), 2))
  {
  }

  /** "$dd" is a reference to the two-digit group dd. */
  lemma ReadBackRefTwoDigits(t: string)
    requires |t| >= 3 && t[0] == '$' && IsDigit(t[1]) && IsDigit(t[2])
    ensures ReadBackRef(t) == Some((10 * DigitValue(t[1]) + DigitValue(t[2]), 3))
  {
  }

  /** A back reference at the head of a template becomes one Ref piece. */
  lemma ParseTemplateRef(t: string, n: nat, k: nat)
    requires '\\' !in t && |t| >= 2 && t[0] == '$' && ReadBackRef(t) == Some((n, k))
    ensures ParseTemplate(t) == [Ref(n)] + ParseTemplate(t[k..])
  {
  }

  /** The literal pieces that spell s. */
  function Lits(s: string): (r: seq<Piece>)
    ensures |r| == |s|
  {
    if s == [] then [] else [Lit(s[0])] + Lits(s[1..])
  }

  /** Text without '$' reads as itself. */
  lemma {:induction false} ParseLiteralPrefix(w: string, rest: string)
    requires '$' !in w && '\\' !in w && '\\' !in rest
    ensures ParseTemplate(w + rest) == Lits(w) + ParseTemplate(rest)
    decreases |w|
  {
    if w != [] {
      assert (w + rest)[1..] == w[1..] + rest;
      ParseLiteralPrefix(w[1..], rest);
      assert Lits(w) == [Lit(w[0])] + Lits(w[1..]);
    } else {
      assert w + rest == rest;
    }
  }

  /** A back reference followed by text without '$' reads as one Ref piece
      and the text's literal pieces. */
  lemma ParseRefThenText(t: string, n: nat, k: nat, w: string, rest: string)
    requires '\\' !in t && |t| >= 2 && t[0] == '$' && ReadBackRef(t) == Some((n, k))
    requires t[k..] == w + rest && '$' !in w && '\\' !in w && '\\' !in rest
    ensures ParseTemplate(t) == [Ref(n)] + Lits(w) + ParseTemplate(rest)
  {
    ParseTemplateRef(t, n, k);
    ParseLiteralPrefix(w, rest);
  }

  /** The text a template stands for, given the captures of one match
      (captures[0] is the whole match). A reference to a group the pattern does
      not have stands for nothing. */
  function Substitute(tmpl: seq<Piece>, captures: seq<string>): string
  {
    if tmpl == [] then [] else PieceText(tmpl[0], captures) + Substitute(tmpl[1..], captures)
  }

  function PieceText(p: Piece, captures: seq<string>): string {
    match p
    case Lit(c) => [c]
    case Ref(n) => if n < |captures| then captures[n] else []
  }

  /** A one-piece template spells that piece. */
  lemma SubstituteOne(p: Piece, captures: seq<string>)
    ensures Substitute([p], captures) == PieceText(p, captures)
  {
    assert [p][1..] == [];
  }

  lemma {:induction false} SubstituteAppend(a: seq<Piece>, b: seq<Piece>, captures: seq<string>)
    ensures Substitute(a + b, captures) == Substitute(a, captures) + Substitute(b, captures)
    decreases |a|
  {
    if a == [] {
      assert a + b == b;
    } else {
      assert (a + b)[1..] == a[1..] + b;
      SubstituteAppend(a[1..], b, captures);
    }
  }

  lemma {:induction false} SubstituteLits(s: string, captures: seq<string>)
    ensures Substitute(Lits(s), captures) == s
    decreases |s|
  {
    if s != [] {
      assert Lits(s)[1..] == Lits(s[1..]);
      SubstituteLits(s[1..], captures);
    }
  }

  /* ---------------------------------------------------------------------- */
  /* Global replacement                                                      */
  /* ---------------------------------------------------------------------- */

  function Captures(s: string, g: seq<Span>): seq<string>
    requires SpansIn(s, g)
  {
    seq(|g|, n requires 0 <= n < |g| => s[g[n].lo..g[n].hi])
  }

  /** preg_replace on s[from..]: every match, left to right and without
      overlap, is replaced by the template's text. */
  function ReplaceFrom(pat: Pattern, tmpl: seq<Piece>, s: string, from: nat): string
    requires from <= |s|
    decreases |s| - from
  {
    match FirstMatch(pat, s, from)
    case None => s[from..]
    case Some(g) => s[from..g[0].lo] + Substitute(tmpl, Captures(s, g)) + ReplaceFrom(pat, tmpl, s, g[0].hi)
  }

  function PregReplace(pat: Pattern, tmpl: seq<Piece>, s: string): string {
    ReplaceFrom(pat, tmpl, s, 0)
  }

  /** A match found at or after from is replaced, and the search resumes
      where it ends. */
  lemma ReplaceFromMatch(pat: Pattern, tmpl: seq<Piece>, s: string, from: nat, g: seq<Span>)
    requires from <= |s| && FirstMatch(pat, s, from) == Some(g)
    ensures SpansIn(s, g) && from <= g[0].lo <= g[0].hi <= |s|
    ensures ReplaceFrom(pat, tmpl, s, from) ==
      s[from..g[0].lo] + Substitute(tmpl, Captures(s, g)) + ReplaceFrom(pat, tmpl, s, g[0].hi)
  {
  }

  /** A subject with exactly one match: the text before it, the template's
      text, and the text after it. */
  lemma PregReplaceOneMatch(pat: Pattern, tmpl: seq<Piece>, s: string, p: nat, g: seq<Span>)
    requires MatchAt(pat, s, p) == Some(g)
    requires forall q: nat :: q < p ==> MatchAt(pat, s, q).None?
    requires forall q: nat :: g[0].hi <= q ==> MatchAt(pat, s, q).None?
    ensures SpansIn(s, g) && p < g[0].hi <= |s|
    ensures PregReplace(pat, tmpl, s) == s[..p] + Substitute(tmpl, Captures(s, g)) + s[g[0].hi..]
  {
    FirstMatchAt(pat, s, 0, p);
    ReplaceFromMatch(pat, tmpl, s, 0, g);
    ReplaceFromNoMatch(pat, tmpl, s, g[0].hi);
  }

  /** Where nothing matches any more, the rest of the subject is copied. */
  lemma ReplaceFromNoMatch(pat: Pattern, tmpl: seq<Piece>, s: string, from: nat)
    requires from <= |s|
    requires forall q :: from <= q ==> MatchAt(pat, s, q).None?
    ensures ReplaceFrom(pat, tmpl, s, from) == s[from..]
  {
    FirstMatchNone(pat, s, from);
  }
}
