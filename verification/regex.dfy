/** The fragment of Python's `re` syntax the indicator patterns are written
    in, and what `re.search(pattern, text, re.IGNORECASE)` decides for it.

    A pattern is a sequence of pieces; a piece is an atom (one literal
    character, possibly backslash-escaped, or `.`) optionally followed by
    `?` or `*`. `.` matches any character but a newline (no DOTALL flag).
    Letters are compared after ASCII lower-casing. */
module Regex {
  import opened Wrappers
  import opened Text

  datatype Atom = Exactly(c: char) | AnyButNewline

  datatype Piece = One(atom: Atom) | Optional(atom: Atom) | Star(atom: Atom)

  /** One text character against one atom, ignoring ASCII case. */
  predicate AtomAccepts(a: Atom, c: char) {
    match a
    case Exactly(x) => Lower(x) == Lower(c)
    case AnyButNewline => c != '\n'
  }

  predicate AllAccepted(a: Atom, w: string) {
    forall i :: 0 <= i < |w| ==> AtomAccepts(a, w[i])
  }

  /** The language of a pattern, stated without search: `w` is the whole
      of one match. A starred atom takes some number `k` of characters. */
  ghost predicate InLanguage(ps: seq<Piece>, w: string)
    decreases |ps|
  {
    if |ps| == 0 then |w| == 0
    else match ps[0]
      case One(a) =>
        |w| > 0 && AtomAccepts(a, w[0]) && InLanguage(ps[1..], w[1..])
      case Optional(a) =>
        || InLanguage(ps[1..], w)
        || (|w| > 0 && AtomAccepts(a, w[0]) && InLanguage(ps[1..], w[1..]))
      case Star(a) =>
        exists k :: 0 <= k <= |w| && AllAccepted(a, w[..k]) && InLanguage(ps[1..], w[k..])
  }

  /** Backtracking match anchored at the start of `t` (the match need not
      reach the end of `t`). */
  predicate MatchHere(ps: seq<Piece>, t: string)
    decreases |t|, |ps|
  {
    if |ps| == 0 then true
    else match ps[0]
      case One(a) =>
        |t| > 0 && AtomAccepts(a, t[0]) && MatchHere(ps[1..], t[1..])
      case Optional(a) =>
        || (|t| > 0 && AtomAccepts(a, t[0]) && MatchHere(ps[1..], t[1..]))
        || MatchHere(ps[1..], t)
      case Star(a) =>
        || MatchHere(ps[1..], t)
        || (|t| > 0 && AtomAccepts(a, t[0]) && MatchHere(ps, t[1..]))
  }

  /** `re.search`: is there a match starting anywhere in `t`? */
  predicate Search(ps: seq<Piece>, t: string)
    decreases |t|
  {
    MatchHere(ps, t) || (|t| > 0 && Search(ps, t[1..]))
  }

  /** The anchored matcher succeeds exactly when some prefix of `t` is in
      the pattern's language. */
  lemma {:induction false} MatchHereIsPrefixInLanguage(ps: seq<Piece>, t: string)
    ensures MatchHere(ps, t) <==> exists j :: 0 <= j <= |t| && InLanguage(ps, t[..j])
    decreases |t|, |ps|, 1
  {
    if |ps| == 0 {
      if MatchHere(ps, t) {
        assert InLanguage(ps, t[..0]);
      }
    } else {
      match ps[0]
      case One(a) => {
        if |t| > 0 {
          MatchHereIsPrefixInLanguage(ps[1..], t[1..]);
          if MatchHere(ps, t) {
            var j :| 0 <= j <= |t[1..]| && InLanguage(ps[1..], t[1..][..j]);
            assert t[..j + 1][1..] == t[1..][..j];
            assert InLanguage(ps, t[..j + 1]);
          }
          if j :| 0 <= j <= |t| && InLanguage(ps, t[..j]) {
            assert t[..j][1..] == t[1..][..j - 1];
          }
        }
      }
      case Optional(a) => {
        MatchHereIsPrefixInLanguage(ps[1..], t);
        if |t| > 0 {
          MatchHereIsPrefixInLanguage(ps[1..], t[1..]);
          if |t| > 0 && AtomAccepts(a, t[0]) && MatchHere(ps[1..], t[1..]) {
            var j :| 0 <= j <= |t[1..]| && InLanguage(ps[1..], t[1..][..j]);
            assert t[..j + 1][1..] == t[1..][..j];
            assert InLanguage(ps, t[..j + 1]);
          }
        }
        if MatchHere(ps[1..], t) {
          var j :| 0 <= j <= |t| && InLanguage(ps[1..], t[..j]);
          assert InLanguage(ps, t[..j]);
        }
        if j :| 0 <= j <= |t| && InLanguage(ps, t[..j]) {
          if !InLanguage(ps[1..], t[..j]) {
            assert t[..j][1..] == t[1..][..j - 1];
          }
        }
      }
      case Star(a) => {
        StarCase(a, ps, t);
      }
    }
  }

  /** The starred-atom case of `MatchHereIsPrefixInLanguage`. */
  lemma {:induction false} StarCase(a: Atom, ps: seq<Piece>, t: string)
    requires |ps| > 0 && ps[0] == Star(a)
    ensures MatchHere(ps, t) <==> exists j :: 0 <= j <= |t| && InLanguage(ps, t[..j])
    decreases |t|, |ps|, 0
  {
    MatchHereIsPrefixInLanguage(ps[1..], t);
    if |t| > 0 {
      MatchHereIsPrefixInLanguage(ps, t[1..]);
    }
    if MatchHere(ps[1..], t) {
      var j :| 0 <= j <= |t| && InLanguage(ps[1..], t[..j]);
      assert AllAccepted(a, t[..j][..0]) && t[..j][0..] == t[..j];
      assert InLanguage(ps, t[..j]);
    } else if |t| > 0 && AtomAccepts(a, t[0]) && MatchHere(ps, t[1..]) {
      var u0 := t[1..];
      var j :| 0 <= j <= |u0| && InLanguage(ps, u0[..j]);
      var u := u0[..j];
      var k :| 0 <= k <= |u| && AllAccepted(a, u[..k]) && InLanguage(ps[1..], u[k..]);
      var w := t[..j + 1];
      assert w == [t[0]] + u;
      assert w[..k + 1] == [t[0]] + u[..k];
      assert AllAccepted(a, w[..k + 1]);
      assert w[k + 1..] == u[k..];
      assert InLanguage(ps, w);
    }
    if j :| 0 <= j <= |t| && InLanguage(ps, t[..j]) {
      var w := t[..j];
      var k :| 0 <= k <= |w| && AllAccepted(a, w[..k]) && InLanguage(ps[1..], w[k..]);
      if k == 0 {
        assert w[0..] == w;
      } else {
        var u := t[1..][..j - 1];
        assert u == w[1..];
        var v := u[..k - 1];
        var wk := w[..k];
        assert AllAccepted(a, v) by {
          forall i | 0 <= i < |v| ensures AtomAccepts(a, v[i]) {
            assert v[i] == wk[i + 1];
          }
        }
        assert u[k - 1..] == w[k..];
        assert InLanguage(ps, u);
        assert AtomAccepts(a, w[..k][0]);
      }
    }
  }

  /** `re.search` succeeds exactly when some stretch `t[i..j]` of the text
      is in the pattern's language. */
  lemma {:induction false} SearchFindsSubstringInLanguage(ps: seq<Piece>, t: string)
    ensures Search(ps, t) <==> exists i, j :: 0 <= i <= j <= |t| && InLanguage(ps, t[i..j])
    decreases |t|
  {
    MatchHereIsPrefixInLanguage(ps, t);
    if |t| > 0 {
      SearchFindsSubstringInLanguage(ps, t[1..]);
    }
    if Search(ps, t) {
      if MatchHere(ps, t) {
        var j :| 0 <= j <= |t| && InLanguage(ps, t[..j]);
        assert t[0..j] == t[..j];
      } else {
        var i, j :| 0 <= i <= j <= |t[1..]| && InLanguage(ps, t[1..][i..j]);
        assert t[1..][i..j] == t[i + 1..j + 1];
      }
    }
    if i, j :| 0 <= i <= j <= |t| && InLanguage(ps, t[i..j]) {
      if i == 0 {
        assert t[..j] == t[i..j];
      } else {
        assert t[1..][i - 1..j - 1] == t[i..j];
      }
    }
  }

  /** A pattern of literal characters only. */
  function Literal(w: string): (r: seq<Piece>)
    ensures |r| == |w|
  {
    seq(|w|, i requires 0 <= i < |w| => One(Exactly(w[i])))
  }

  /** A literal pattern's language is its word, up to ASCII case. */
  lemma {:induction false} LiteralLanguage(w: string, u: string)
    ensures InLanguage(Literal(w), u) <==> |u| == |w| && LowerString(u) == LowerString(w)
    decreases |w|
  {
    if |w| > 0 {
      assert Literal(w)[1..] == Literal(w[1..]);
      if |u| > 0 {
        LiteralLanguage(w[1..], u[1..]);
        assert LowerString(u) == [Lower(u[0])] + LowerString(u[1..]);
        assert LowerString(w) == [Lower(w[0])] + LowerString(w[1..]);
        if LowerString(u) == LowerString(w) {
          assert LowerString(u)[0] == LowerString(w)[0];
          assert LowerString(u)[1..] == LowerString(w)[1..];
        }
      }
    } else if |u| > 0 {
      assert |LowerString(u)| != |LowerString(w)|;
    }
  }

  /** `w` occurs in `t` at position `i`, up to ASCII case. */
  predicate OccursFoldedAt(w: string, t: string, i: nat) {
    i + |w| <= |t| && LowerString(t[i..i + |w|]) == LowerString(w)
  }

  /** For a literal pattern, `re.search` with IGNORECASE is case-folded
      substring containment. */
  lemma LiteralSearchIsContainment(w: string, t: string)
    ensures Search(Literal(w), t) <==> exists i: nat :: OccursFoldedAt(w, t, i)
  {
    SearchFindsSubstringInLanguage(Literal(w), t);
    if Search(Literal(w), t) {
      var i, j :| 0 <= i <= j <= |t| && InLanguage(Literal(w), t[i..j]);
      LiteralLanguage(w, t[i..j]);
      assert t[i..i + |w|] == t[i..j];
      assert OccursFoldedAt(w, t, i);
    }
    if i: nat :| OccursFoldedAt(w, t, i) {
      LiteralLanguage(w, t[i..i + |w|]);
      assert InLanguage(Literal(w), t[i..i + |w|]);
    }
  }

  /** An occurrence stays an occurrence when text is added around it. */
  lemma OccursFoldedShift(w: string, a: string, t: string, b: string, i: nat)
    requires OccursFoldedAt(w, t, i)
    ensures OccursFoldedAt(w, a + t + b, |a| + i)
  {
    assert (a + t + b)[|a| + i..|a| + i + |w|] == t[i..i + |w|];
  }

  /** Every match holds, for each plain (unquantified) atom of the
      pattern, a character that atom accepts. */
  lemma {:induction false} LanguageHasPlainAtom(ps: seq<Piece>, k: nat, w: string)
    requires k < |ps| && ps[k].One?
    requires InLanguage(ps, w)
    ensures exists m :: 0 <= m < |w| && AtomAccepts(ps[k].atom, w[m])
    decreases |ps|
  {
    if k == 0 {
      assert AtomAccepts(ps[0].atom, w[0]);
    } else {
      assert ps[1..][k - 1] == ps[k];
      match ps[0]
      case One(a) => {
        LanguageHasPlainAtom(ps[1..], k - 1, w[1..]);
        var m :| 0 <= m < |w[1..]| && AtomAccepts(ps[k].atom, w[1..][m]);
        assert w[1..][m] == w[m + 1];
      }
      case Optional(a) => {
        if InLanguage(ps[1..], w) {
          LanguageHasPlainAtom(ps[1..], k - 1, w);
        } else {
          LanguageHasPlainAtom(ps[1..], k - 1, w[1..]);
          var m :| 0 <= m < |w[1..]| && AtomAccepts(ps[k].atom, w[1..][m]);
          assert w[1..][m] == w[m + 1];
        }
      }
      case Star(a) => {
        var j :| 0 <= j <= |w| && AllAccepted(a, w[..j]) && InLanguage(ps[1..], w[j..]);
        LanguageHasPlainAtom(ps[1..], k - 1, w[j..]);
        var m :| 0 <= m < |w[j..]| && AtomAccepts(ps[k].atom, w[j..][m]);
        assert w[j..][m] == w[j + m];
      }
    }
  }

  /** A text with no character for some plain atom of the pattern has no
      match. */
  lemma SearchNeedsPlainAtom(ps: seq<Piece>, k: nat, t: string)
    requires k < |ps| && ps[k].One?
    requires forall i :: 0 <= i < |t| ==> !AtomAccepts(ps[k].atom, t[i])
    ensures !Search(ps, t)
  {
    SearchFindsSubstringInLanguage(ps, t);
    forall i, j | 0 <= i <= j <= |t| ensures !InLanguage(ps, t[i..j]) {
      if InLanguage(ps, t[i..j]) {
        LanguageHasPlainAtom(ps, k, t[i..j]);
        assert false;
      }
    }
  }

  // ---------------------------------------------------------------------
  // Pattern text

  /** Characters that have a meaning of their own in pattern text. */
  predicate IsMeta(c: char) {
    || c == '.' || c == '^' || c == '$' || c == '*' || c == '+' || c == '?' || c == '|'
    || c == '{' || c == '}' || c == '[' || c == ']' || c == '(' || c == ')' || c == '\\'
  }

  function RenderAtom(a: Atom): (r: string)
    ensures 1 <= |r| <= 2
  {
    match a
    case Exactly(c) => if IsMeta(c) then ['\\', c] else [c]
    case AnyButNewline => "."
  }

  function RenderPiece(p: Piece): string {
    match p
    case One(a) => RenderAtom(a)
    case Optional(a) => RenderAtom(a) + "?"
    case Star(a) => RenderAtom(a) + "*"
  }

  /** The pattern text of a piece sequence. */
  function Render(ps: seq<Piece>): string
    decreases |ps|
  {
    if |ps| == 0 then "" else RenderPiece(ps[0]) + Render(ps[1..])
  }

  lemma {:induction false} RenderConcat(a: seq<Piece>, b: seq<Piece>)
    ensures Render(a + b) == Render(a) + Render(b)
    decreases |a|
  {
    if |a| == 0 {
      assert a + b == b;
    } else {
      assert (a + b)[0] == a[0] && (a + b)[1..] == a[1..] + b;
      RenderConcat(a[1..], b);
    }
  }

  /** A word without meta-characters is its own pattern text. */
  lemma {:induction false} RenderLiteral(w: string)
    requires forall i :: 0 <= i < |w| ==> !IsMeta(w[i])
    ensures Render(Literal(w)) == w
    decreases |w|
  {
    if |w| > 0 {
      RenderLiteral(w[1..]);
      assert Literal(w)[1..] == Literal(w[1..]);
      assert w == [w[0]] + w[1..];
    }
  }

  /** Reads one atom at the front of `s`: its meaning and the number of
      characters it spans. Fails on syntax outside the fragment. */
  function ParseAtom(s: string): (r: Option<(Atom, nat)>)
    requires |s| > 0
    ensures r.Some? ==> 1 <= r.value.1 <= |s|
  {
    if s[0] == '\\' then
      if |s| >= 2 && IsMeta(s[1]) then Some((Exactly(s[1]), 2)) else None
    else if s[0] == '.' then Some((AnyButNewline, 1))
    else if IsMeta(s[0]) then None
    else Some((Exactly(s[0]), 1))
  }

  function Prepend(p: Piece, r: Option<seq<Piece>>): Option<seq<Piece>> {
    match r
    case None => None
    case Some(ps) => Some([p] + ps)
  }

  /** Reads pattern text into pieces; `None` for text outside the
      fragment. */
  function Parse(s: string): Option<seq<Piece>>
    decreases |s|
  {
    if |s| == 0 then Some([])
    else match ParseAtom(s)
      case None => None
      case Some((a, n)) =>
        var rest := s[n..];
        if |rest| > 0 && rest[0] == '?' then Prepend(Optional(a), Parse(rest[1..]))
        else if |rest| > 0 && rest[0] == '*' then Prepend(Star(a), Parse(rest[1..]))
        else Prepend(One(a), Parse(rest))
  }

  lemma ParseAtomRender(a: Atom, x: string)
    ensures ParseAtom(RenderAtom(a) + x) == Some((a, |RenderAtom(a)|))
  {
    var s := RenderAtom(a) + x;
    assert s[0] == RenderAtom(a)[0];
    if |RenderAtom(a)| == 2 {
      assert s[1] == RenderAtom(a)[1];
    }
  }

  /** Pattern text never starts with a quantifier. */
  lemma RenderStart(ps: seq<Piece>)
    requires |ps| > 0
    ensures |Render(ps)| > 0 && Render(ps)[0] != '?' && Render(ps)[0] != '*'
  {
    assert Render(ps)[0] == RenderAtom(ps[0].atom)[0];
  }

  /** Reading one rendered piece in front of text that does not start
      with a quantifier. */
  lemma ParsePiece(p: Piece, tail: string)
    requires |tail| > 0 ==> tail[0] != '?' && tail[0] != '*'
    ensures Parse(RenderPiece(p) + tail) == Prepend(p, Parse(tail))
  {
    if p.One? {
      ParseBare(p.atom, tail);
    } else {
      ParseWithQuantifier(p, tail);
    }
  }

  /** An unquantified atom. */
  lemma ParseBare(a: Atom, tail: string)
    requires |tail| > 0 ==> tail[0] != '?' && tail[0] != '*'
    ensures Parse(RenderAtom(a) + tail) == Prepend(One(a), Parse(tail))
  {
    var n := |RenderAtom(a)|;
    var s := RenderAtom(a) + tail;
    ParseAtomRender(a, tail);
    ParseAfterAtom(s, a, n);
    assert s[n..] == tail;
  }

  /** An atom followed by `?` or `*`. */
  lemma ParseWithQuantifier(p: Piece, tail: string)
    requires !p.One?
    ensures Parse(RenderPiece(p) + tail) == Prepend(p, Parse(tail))
  {
    var a := p.atom;
    var c := if p.Optional? then '?' else '*';
    var n := |RenderAtom(a)|;
    var s := RenderPiece(p) + tail;
    assert s == RenderAtom(a) + ([c] + tail);
    ParseAtomRender(a, [c] + tail);
    ParseAfterAtom(s, a, n);
    assert s[n..] == [c] + tail;
    assert s[n..][1..] == tail;
  }

  /** One unfolding of `Parse` once the first atom is known. */
  lemma ParseAfterAtom(s: string, a: Atom, n: nat)
    requires |s| > 0 && ParseAtom(s) == Some((a, n))
    ensures var rest := s[n..];
      Parse(s) ==
        if |rest| > 0 && rest[0] == '?' then Prepend(Optional(a), Parse(rest[1..]))
        else if |rest| > 0 && rest[0] == '*' then Prepend(Star(a), Parse(rest[1..]))
        else Prepend(One(a), Parse(rest))
  {
  }

  /** Reading back the text of a piece sequence gives the same pieces. */
  lemma {:induction false} ParseRender(ps: seq<Piece>)
    ensures Parse(Render(ps)) == Some(ps)
    decreases |ps|
  {
    if |ps| > 0 {
      ParseRender(ps[1..]);
      if |ps[1..]| > 0 {
        RenderStart(ps[1..]);
      }
      ParsePiece(ps[0], Render(ps[1..]));
      assert ps == [ps[0]] + ps[1..];
    }
  }
}
