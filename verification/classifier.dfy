/** The content classifier of scripts/scan_docs.py (`scan_text`): every
    configured indicator pattern is searched for in the text, the hits are
    collected in configuration order, and the text is labelled Suspicious /
    High when anything was hit and Safe / Low otherwise. */
module Classifier {
  import opened Wrappers
  import opened Seqs
  import opened Text
  import opened Regex

  /** A configured indicator: its pattern text, as it appears in the
      configuration and in the report, and the pattern that text denotes. */
  datatype Indicator = Indicator(source: string, regex: seq<Piece>)

  /** The configured pattern texts, in configuration order. */
  const SuspiciousPatterns: seq<string> := [
    "http://", "https?://.*bit\\.ly", "cmd.exe", "powershell", "javascript:",
    "base64,", "vbscript", "shellcode", "macro", "AutoOpen"
  ]

  /** The same patterns with their meaning spelled out. */
  const Indicators: seq<Indicator> := [
    Indicator("http://", Literal("http://")),
    Indicator("https?://.*bit\\.ly",
      Literal("http") + [Optional(Exactly('s'))] + Literal("://") + [Star(AnyButNewline)]
      + Literal("bit") + [One(Exactly('.'))] + Literal("ly")),
    Indicator("cmd.exe", Literal("cmd") + [One(AnyButNewline)] + Literal("exe")),
    Indicator("powershell", Literal("powershell")),
    Indicator("javascript:", Literal("javascript:")),
    Indicator("base64,", Literal("base64,")),
    Indicator("vbscript", Literal("vbscript")),
    Indicator("shellcode", Literal("shellcode")),
    Indicator("macro", Literal("macro")),
    Indicator("AutoOpen", Literal("AutoOpen"))
  ]

  const SafeStatus: string := "\U{2705} Safe"
  const SuspiciousOpen: string := "\U{26A0}\U{FE0F} Suspicious ("
  const HighRisk: string := "High"
  const LowRisk: string := "Low"

  /** `re.search(pattern, content, re.IGNORECASE)` for one indicator. */
  predicate Matches(ind: Indicator, content: string) {
    Search(ind.regex, content)
  }

  function Sources(inds: seq<Indicator>): seq<string> {
    Map((ind: Indicator) => ind.source, inds)
  }

  /** The pattern texts of the indicators of `inds` found in `content`:
      exactly the hits, in list order, each once. Every indicator is
      tried; there is no early exit. */
  function Hits(inds: seq<Indicator>, content: string): (r: seq<string>)
    requires Distinct(Sources(inds))
    ensures forall p :: p in r <==>
      exists ind :: ind in inds && ind.source == p && Matches(ind, content)
    ensures IsSubsequence(r, Sources(inds))
    ensures Distinct(r)
    decreases |inds|
  {
    if |inds| == 0 then []
    else
      var tail := Sources(inds)[1..];
      assert tail == Sources(inds[1..]);
      DistinctTail(Sources(inds));
      var rest := Hits(inds[1..], content);
      SubsequenceMembers(rest, tail);
      if Matches(inds[0], content) then
        var r := [inds[0].source] + rest;
        assert r[1..] == rest;
        assert Distinct(r) by {
          forall i, j | 0 <= i < j < |r| ensures r[i] != r[j] {
            if i > 0 {
              assert r[i] == rest[i - 1] && r[j] == rest[j - 1];
            } else {
              assert r[j] in rest;
            }
          }
        }
        r
      else
        rest
  }

  /** The status and risk cells for `content` under the indicator list
      `inds`. */
  function Classify(inds: seq<Indicator>, content: string): (r: (string, string))
    requires Distinct(Sources(inds))
    ensures r.1 == HighRisk || r.1 == LowRisk
    ensures r.1 == HighRisk <==> exists ind :: ind in inds && Matches(ind, content)
    ensures r.0 == SafeStatus <==> r.1 == LowRisk
  {
    var issues := Hits(inds, content);
    if |issues| > 0 then
      var status := SuspiciousOpen + Join(", ", issues) + ")";
      assert status[0] != SafeStatus[0];
      assert issues[0] in issues;
      (status, HighRisk)
    else
      assert forall ind :: ind in inds ==> !Matches(ind, content) by {
        forall ind | ind in inds ensures !Matches(ind, content) {
          assert ind.source !in issues;
        }
      }
      (SafeStatus, LowRisk)
  }

  /** The hits of the configured indicators. */
  function Issues(content: string): seq<string>
  {
    ConfiguredIndicators();
    Hits(Indicators, content)
  }

  /** `scan_text(content, filename)`: the status and risk cells of a
      report row. The file name takes no part. */
  function ScanText(content: string, filename: string): (r: (string, string))
    ensures r.1 == HighRisk || r.1 == LowRisk
    ensures r.1 == HighRisk <==> exists ind :: ind in Indicators && Matches(ind, content)
    ensures r.0 == SafeStatus <==> r.1 == LowRisk
  {
    ConfiguredIndicators();
    Classify(Indicators, content)
  }

  /** The indicator list is the configured pattern list, without
      repetitions. */
  lemma ConfiguredIndicators()
    ensures Sources(Indicators) == SuspiciousPatterns
    ensures Distinct(Sources(Indicators))
  {
  }

  /** `scan_text` ignores its file name: equal content, equal cells. */
  lemma ScanIgnoresFilename(content: string, name1: string, name2: string)
    ensures ScanText(content, name1) == ScanText(content, name2)
  {
  }

  /** The risk is High exactly when the issue list is non-empty. */
  lemma {:induction false} HighIffIssues(content: string, filename: string)
    ensures ScanText(content, filename).1 == HighRisk <==> |Issues(content)| > 0
    ensures ScanText(content, filename).0 == SafeStatus <==> |Issues(content)| == 0
  {
    ConfiguredIndicators();
    var issues := Issues(content);
    if |issues| > 0 {
      assert issues[0] in issues;
    } else {
      assert forall ind :: ind in Indicators ==> !Matches(ind, content) by {
        forall ind | ind in Indicators ensures !Matches(ind, content) {
          assert ind.source !in issues;
        }
      }
    }
  }

  /** `Issues` is the only selection of the configured patterns that keeps
      their order and holds exactly the ones found. */
  lemma IssuesAreTheOrderedHits(content: string, r: seq<string>)
    requires IsSubsequence(r, SuspiciousPatterns)
    requires forall p :: p in r <==>
      exists ind :: ind in Indicators && ind.source == p && Matches(ind, content)
    ensures r == Issues(content)
  {
    ConfiguredIndicators();
    SubsequenceUnique(r, Issues(content), SuspiciousPatterns);
  }

  /** No pattern text holds a space, a table bar or a newline. */
  lemma PatternCharacters()
    ensures forall p :: p in SuspiciousPatterns ==> ' ' !in p && '|' !in p && '\n' !in p
  {
  }

  // ---------------------------------------------------------------------
  // Reading the issue list back from a status cell

  /** The words `Join(", ", parts)` falls into when cut at spaces, for
      parts without spaces: every part but the last keeps its comma. */
  function WithCommas(parts: seq<string>): (r: seq<string>)
    ensures |r| == |parts|
    ensures forall i :: 0 <= i < |parts| - 1 ==> r[i] == parts[i] + ","
    ensures |parts| > 0 ==> r[|r| - 1] == parts[|parts| - 1]
    decreases |parts|
  {
    if |parts| <= 1 then parts else [parts[0] + ","] + WithCommas(parts[1..])
  }

  /** Drops the comma that ends every word but the last; `None` when one
      is missing. */
  function StripCommas(words: seq<string>): Option<seq<string>>
    decreases |words|
  {
    if |words| <= 1 then Some(words)
    else if |words[0]| > 0 && words[0][|words[0]| - 1] == ',' then
      match StripCommas(words[1..])
      case None => None
      case Some(rest) => Some([words[0][..|words[0]| - 1]] + rest)
    else None
  }

  lemma {:induction false} JoinCommaSpace(parts: seq<string>)
    ensures Join(", ", parts) == Join(" ", WithCommas(parts))
    decreases |parts|
  {
    if |parts| > 1 {
      JoinCommaSpace(parts[1..]);
      var w := WithCommas(parts);
      assert w[1..] == WithCommas(parts[1..]);
      calc {
        Join(" ", w);
        w[0] + " " + Join(" ", w[1..]);
        (parts[0] + ",") + " " + Join(", ", parts[1..]);
        { assert (parts[0] + ",") + " " == parts[0] + ", "; }
        Join(", ", parts);
      }
    }
  }

  lemma {:induction false} StripWithCommas(parts: seq<string>)
    ensures StripCommas(WithCommas(parts)) == Some(parts)
    decreases |parts|
  {
    if |parts| > 1 {
      StripWithCommas(parts[1..]);
      var w := WithCommas(parts);
      assert w[0] == parts[0] + ",";
      assert w[1..] == WithCommas(parts[1..]);
      assert w[0][..|w[0]| - 1] == parts[0];
      assert parts == [parts[0]] + parts[1..];
    }
  }

  lemma {:induction false} WithCommasKeepsOut(c: char, parts: seq<string>)
    requires c != ','
    requires forall i :: 0 <= i < |parts| ==> c !in parts[i]
    ensures forall i :: 0 <= i < |parts| ==> c !in WithCommas(parts)[i]
    decreases |parts|
  {
    if |parts| > 1 {
      WithCommasKeepsOut(c, parts[1..]);
      assert forall i :: 1 <= i < |parts| ==> WithCommas(parts)[i] == WithCommas(parts[1..])[i - 1];
    }
  }

  /** The issue list a status cell names: none for the Safe status, the
      comma-separated list between the parentheses otherwise. */
  function DecodeStatus(status: string): Option<seq<string>> {
    if status == SafeStatus then Some([])
    else if
      && |SuspiciousOpen| < |status|
      && status[..|SuspiciousOpen|] == SuspiciousOpen
      && status[|status| - 1] == ')'
    then
      StripCommas(Split(' ', status[|SuspiciousOpen|..|status| - 1]))
    else None
  }

  /** The status cell names exactly the issues found, in order: the list
      can be read back from it. */
  lemma StatusNamesIssues(content: string, filename: string)
    ensures DecodeStatus(ScanText(content, filename).0) == Some(Issues(content))
  {
    ConfiguredIndicators();
    HighIffIssues(content, filename);
    var issues := Issues(content);
    if |issues| > 0 {
      var joined := Join(", ", issues);
      var status := SuspiciousOpen + joined + ")";
      assert ScanText(content, filename).0 == status;
      assert status != SafeStatus by {
        assert status[0] != SafeStatus[0];
      }
      assert status[..|SuspiciousOpen|] == SuspiciousOpen;
      assert status[|SuspiciousOpen|..|status| - 1] == joined;
      IssueCharacters(content);
      WithCommasKeepsOut(' ', issues);
      JoinCommaSpace(issues);
      SplitJoin(' ', WithCommas(issues));
      StripWithCommas(issues);
    }
  }

  /** A status cell holds no table bar and no newline, so it stays inside
      its cell of the report row. */
  lemma StatusStaysInCell(content: string, filename: string)
    ensures '|' !in ScanText(content, filename).0 && '\n' !in ScanText(content, filename).0
  {
    HighIffIssues(content, filename);
    var issues := Issues(content);
    if |issues| > 0 {
      IssueCharacters(content);
      JoinAvoids('|', ", ", issues);
      JoinAvoids('\n', ", ", issues);
      var status := SuspiciousOpen + Join(", ", issues) + ")";
      assert ScanText(content, filename).0 == status by {
        ConfiguredIndicators();
      }
      assert '|' !in SuspiciousOpen && '\n' !in SuspiciousOpen;
    }
  }

  /** No issue holds a space, a table bar or a newline. */
  lemma IssueCharacters(content: string)
    ensures forall i :: 0 <= i < |Issues(content)| ==>
      ' ' !in Issues(content)[i] && '|' !in Issues(content)[i] && '\n' !in Issues(content)[i]
  {
    ConfiguredIndicators();
    var issues := Issues(content);
    SubsequenceMembers(issues, SuspiciousPatterns);
    forall i | 0 <= i < |issues|
      ensures ' ' !in issues[i] && '|' !in issues[i] && '\n' !in issues[i]
    {
      assert issues[i] in SuspiciousPatterns;
      PatternCharacters();
    }
  }

  // ---------------------------------------------------------------------
  // Worked examples

  /** No character of `t` is `c`, up to ASCII case. */
  predicate Lacks(t: string, c: char) {
    forall m :: 0 <= m < |t| ==> Lower(t[m]) != Lower(c)
  }

  /** A text made of two parts that both lack `c` lacks `c`. */
  lemma LacksConcat(a: string, b: string, c: char)
    requires Lacks(a, c) && Lacks(b, c)
    ensures Lacks(a + b, c)
  {
    forall m | 0 <= m < |a + b| ensures Lower((a + b)[m]) != Lower(c) {
      if m >= |a| {
        assert (a + b)[m] == b[m - |a|];
      }
    }
  }

  /** An indicator whose pattern has a plain character that `t` lacks is
      not found in `t`. */
  lemma NotFound(i: nat, k: nat, c: char, t: string)
    requires i < |Indicators| && k < |Indicators[i].regex|
    requires Indicators[i].regex[k] == One(Exactly(c))
    requires Lacks(t, c)
    ensures !Matches(Indicators[i], t)
  {
    SearchNeedsPlainAtom(Indicators[i].regex, k, t);
  }

  /** No character of `t` that folds like `c` is directly followed by one
      that folds like `d`. */
  predicate NoPair(t: string, c: char, d: char) {
    forall m :: 0 <= m < |t| - 1 ==> !(Lower(t[m]) == Lower(c) && Lower(t[m + 1]) == Lower(d))
  }

  lemma LacksNoPair(t: string, c: char, d: char)
    requires Lacks(t, c)
    ensures NoPair(t, c, d)
  {
    forall m | 0 <= m < |t| - 1 ensures Lower(t[m]) != Lower(c) {
    }
  }

  /** Two texts without the pair, the first not ending in its first
      character, make a text without the pair. */
  lemma NoPairConcat(a: string, b: string, c: char, d: char)
    requires NoPair(a, c, d) && NoPair(b, c, d)
    requires |a| > 0 ==> Lower(a[|a| - 1]) != Lower(c)
    ensures NoPair(a + b, c, d)
  {
    forall m | 0 <= m < |a + b| - 1
      ensures !(Lower((a + b)[m]) == Lower(c) && Lower((a + b)[m + 1]) == Lower(d))
    {
      if m >= |a| {
        assert (a + b)[m] == b[m - |a|] && (a + b)[m + 1] == b[m + 1 - |a|];
      } else if m + 1 < |a| {
        assert (a + b)[m] == a[m] && (a + b)[m + 1] == a[m + 1];
      } else {
        assert (a + b)[m] == a[|a| - 1];
      }
    }
  }

  /** The AutoOpen indicator searches for its text literally. */
  lemma AutoOpenIsLiteral()
    ensures Indicators[9].source == "AutoOpen"
    ensures Indicators[9].regex == Literal("AutoOpen")
  {
  }

  /** The macro indicator searches for its text literally. */
  lemma MacroIsLiteral()
    ensures Indicators[8].source == "macro"
    ensures Indicators[8].regex == Literal("macro")
  {
  }

  /** A text with `macro` in it, in any letter case, is flagged, and
      `macro` is among its issues. */
  lemma MacroFlagged(t: string, j: nat, filename: string)
    requires OccursFoldedAt("macro", t, j)
    ensures "macro" in Issues(t)
    ensures ScanText(t, filename).1 == HighRisk
    ensures ScanText(t, filename).0 != SafeStatus
  {
    MacroIsLiteral();
    LiteralSearchIsContainment("macro", t);
    assert Matches(Indicators[8], t);
    ConfiguredIndicators();
    assert Indicators[8] in Indicators;
  }

  /** A literal pattern two of whose neighbouring characters never stand
      side by side in `t` is not found in `t`. */
  lemma PairNotFound(w: string, k: nat, t: string)
    requires k + 1 < |w|
    requires NoPair(t, w[k], w[k + 1])
    ensures !Search(Literal(w), t)
  {
    LiteralSearchIsContainment(w, t);
  }

  const LinkText: string := "visit http://example.com now"
  const ProseText: string := "hello world"

  /** A text holding a plain link is Suspicious, and only for the plain
      link indicator. */
  lemma PlainLinkExample()
    ensures ScanText(LinkText, "note.txt") == (SuspiciousOpen + "http://" + ")", HighRisk)
  {
    LinkTextHits();
    LinkTextMisses();
    OnlyFirstFound(LinkText);
    IssuesAreTheOrderedHits(LinkText, ["http://"]);
    HighIffIssues(LinkText, "note.txt");
  }

  lemma LinkTextHits()
    ensures Matches(Indicators[0], LinkText)
  {
    assert Indicators[0].regex == Literal("http://");
    LinkTextHasLink();
    LiteralSearchIsContainment("http://", LinkText);
  }

  lemma LinkTextHasLink()
    ensures OccursFoldedAt("http://", LinkText, 6)
  {
    assert LinkText[6] == 'h';
    assert LinkText[7] == 't';
    assert LinkText[8] == 't';
    assert LinkText[9] == 'p';
    assert LinkText[10] == ':';
    assert LinkText[11] == '/';
    assert LinkText[12] == '/';
    assert LinkText[6..13] == "http://";
  }

  /** One plain character of each other indicator, absent from the link
      text. */
  lemma LinkTextAtoms()
    ensures Indicators[1].regex[9] == One(Exactly('b'))   // bit.ly
    ensures Indicators[2].regex[2] == One(Exactly('d'))   // cmd
    ensures Indicators[3].regex[4] == One(Exactly('r'))   // powershell
    ensures Indicators[4].regex[0] == One(Exactly('j'))   // javascript
    ensures Indicators[5].regex[0] == One(Exactly('b'))   // base64
    ensures Indicators[6].regex[1] == One(Exactly('b'))   // vbscript
    ensures Indicators[7].regex[7] == One(Exactly('d'))   // shellcode
    ensures Indicators[8].regex[3] == One(Exactly('r'))   // macro
    ensures Indicators[9].regex[1] == One(Exactly('u'))   // AutoOpen
  {
  }

  lemma LinkTextLacks()
    ensures Lacks(LinkText, 'b') && Lacks(LinkText, 'd') && Lacks(LinkText, 'r')
    ensures Lacks(LinkText, 'j') && Lacks(LinkText, 'u')
  {
    forall m | 0 <= m < |LinkText|
      ensures LinkText[m] in {'v', 'i', 's', 't', ' ', 'h', 'p', ':', '/', 'e', 'x', 'a', 'm', 'l', '.', 'c', 'o', 'n', 'w'}
    {
    }
  }

  lemma LinkTextMisses()
    ensures forall i :: 1 <= i < |Indicators| ==> !Matches(Indicators[i], LinkText)
  {
    var t := LinkText;
    LinkTextAtoms();
    LinkTextLacks();
    forall i | 1 <= i < |Indicators| ensures !Matches(Indicators[i], LinkText) {
      if i == 1 { NotFound(1, 9, 'b', t); }
      else if i == 2 { NotFound(2, 2, 'd', t); }
      else if i == 3 { NotFound(3, 4, 'r', t); }
      else if i == 4 { NotFound(4, 0, 'j', t); }
      else if i == 5 { NotFound(5, 0, 'b', t); }
      else if i == 6 { NotFound(6, 1, 'b', t); }
      else if i == 7 { NotFound(7, 7, 'd', t); }
      else if i == 8 { NotFound(8, 3, 'r', t); }
      else { NotFound(9, 1, 'u', t); }
    }
  }

  lemma OnlyFirstFound(t: string)
    requires Matches(Indicators[0], t)
    requires forall i :: 1 <= i < |Indicators| ==> !Matches(Indicators[i], t)
    ensures forall p :: p in ["http://"] <==>
      exists ind :: ind in Indicators && ind.source == p && Matches(ind, t)
  {
    assert Indicators[0] in Indicators;
    forall ind | ind in Indicators && Matches(ind, t) ensures ind.source == "http://" {
      var i :| 0 <= i < |Indicators| && Indicators[i] == ind;
      assert i == 0;
    }
  }

  /** Plain prose is Safe. */
  lemma PlainProseExample()
    ensures ScanText(ProseText, "note.txt") == (SafeStatus, LowRisk)
  {
    ProseTextMisses();
  }

  /** One plain character of each indicator, absent from the prose text. */
  lemma ProseTextAtoms()
    ensures Indicators[0].regex[1] == One(Exactly('t'))   // http://
    ensures Indicators[1].regex[1] == One(Exactly('t'))   // https?://.*bit.ly
    ensures Indicators[2].regex[0] == One(Exactly('c'))   // cmd
    ensures Indicators[3].regex[0] == One(Exactly('p'))   // powershell
    ensures Indicators[4].regex[0] == One(Exactly('j'))   // javascript
    ensures Indicators[5].regex[0] == One(Exactly('b'))   // base64
    ensures Indicators[6].regex[0] == One(Exactly('v'))   // vbscript
    ensures Indicators[7].regex[0] == One(Exactly('s'))   // shellcode
    ensures Indicators[8].regex[0] == One(Exactly('m'))   // macro
    ensures Indicators[9].regex[0] == One(Exactly('A'))   // AutoOpen
  {
  }

  lemma ProseTextLacks()
    ensures Lacks(ProseText, 't') && Lacks(ProseText, 'c') && Lacks(ProseText, 'p')
    ensures Lacks(ProseText, 'j') && Lacks(ProseText, 'b') && Lacks(ProseText, 'v')
    ensures Lacks(ProseText, 's') && Lacks(ProseText, 'm') && Lacks(ProseText, 'A')
  {
    forall m | 0 <= m < |ProseText|
      ensures ProseText[m] in {'h', 'e', 'l', 'o', ' ', 'w', 'r', 'd'}
    {
    }
  }

  lemma ProseTextMisses()
    ensures forall ind :: ind in Indicators ==> !Matches(ind, ProseText)
  {
    var t := ProseText;
    ProseTextAtoms();
    ProseTextLacks();
    forall i | 0 <= i < |Indicators| ensures !Matches(Indicators[i], ProseText) {
      if i == 0 { NotFound(0, 1, 't', t); }
      else if i == 1 { NotFound(1, 1, 't', t); }
      else if i == 2 { NotFound(2, 0, 'c', t); }
      else if i == 3 { NotFound(3, 0, 'p', t); }
      else if i == 4 { NotFound(4, 0, 'j', t); }
      else if i == 5 { NotFound(5, 0, 'b', t); }
      else if i == 6 { NotFound(6, 0, 'v', t); }
      else if i == 7 { NotFound(7, 0, 's', t); }
      else if i == 8 { NotFound(8, 0, 'm', t); }
      else { NotFound(9, 0, 'A', t); }
    }
  }

  /** Every configured pattern text reads back as the pattern the model
      gives it. */
  lemma IndicatorsParse()
    ensures forall i :: 0 <= i < |Indicators| ==> Parse(Indicators[i].source) == Some(Indicators[i].regex)
  {
    forall i | 0 <= i < |Indicators|
      ensures Parse(Indicators[i].source) == Some(Indicators[i].regex)
    {
      IndicatorText(i);
      ParseRender(Indicators[i].regex);
    }
  }

  /** The pattern text of each indicator is the text of its pattern. */
  lemma IndicatorText(i: nat)
    requires i < |Indicators|
    ensures Render(Indicators[i].regex) == Indicators[i].source
  {
    if i == 1 {
      ShortLinkText();
    } else if i == 2 {
      CmdExeText();
    } else {
      var w := Indicators[i].source;
      assert Indicators[i].regex == Literal(w);
      assert forall k :: 0 <= k < |w| ==> !IsMeta(w[k]);
      RenderLiteral(w);
    }
  }

  lemma ShortLinkText()
    ensures Render(Indicators[1].regex) == Indicators[1].source
  {
    var a, b, c, d := Literal("http"), [Optional(Exactly('s'))], Literal("://"), [Star(AnyButNewline)];
    var e, f, g := Literal("bit"), [One(Exactly('.'))], Literal("ly");
    assert Indicators[1].regex == (a + b + c + d) + (e + f + g);
    ShortLinkScheme();
    ShortLinkHost();
    RenderConcat(a + b + c + d, e + f + g);
  }

  lemma ShortLinkScheme()
    ensures Render(Literal("http") + [Optional(Exactly('s'))] + Literal("://") + [Star(AnyButNewline)])
      == "https?://.*"
  {
    var a, b, c, d := Literal("http"), [Optional(Exactly('s'))], Literal("://"), [Star(AnyButNewline)];
    RenderLiteral("http");
    RenderLiteral("://");
    RenderConcat(a, b);
    RenderConcat(a + b, c);
    RenderConcat(a + b + c, d);
    assert Render(b) == "s?";
    assert Render(d) == ".*";
  }

  lemma ShortLinkHost()
    ensures Render(Literal("bit") + [One(Exactly('.'))] + Literal("ly")) == "bit\\.ly"
  {
    var e, f, g := Literal("bit"), [One(Exactly('.'))], Literal("ly");
    RenderLiteral("bit");
    RenderLiteral("ly");
    RenderConcat(e, f);
    RenderConcat(e + f, g);
    assert Render(f) == "\\.";
  }

  lemma CmdExeText()
    ensures Render(Indicators[2].regex) == Indicators[2].source
  {
    var a, b, c := Literal("cmd"), [One(AnyButNewline)], Literal("exe");
    RenderLiteral("cmd");
    RenderLiteral("exe");
    RenderConcat(a, b);
    RenderConcat(a + b, c);
    assert Render(b) == ".";
  }
}
