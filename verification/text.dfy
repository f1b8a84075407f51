/** String operations of the host language, on `string` = `seq<char>`:
    ASCII lower-casing, `str.endswith`, `sep.join(parts)`, `str.split(c)`
    for a one-character separator, and newline-terminated lines. */
module Text {

  /** Lower-cases the ASCII letters 'A'..'Z' and leaves every other
      character alone. */
  function Lower(c: char): (r: char)
    ensures 'A' <= c <= 'Z' ==> 'a' <= r <= 'z' && r as int - c as int == 32
    ensures !('A' <= c <= 'Z') ==> r == c
  {
    if 'A' <= c <= 'Z' then (c as int + 32) as char else c
  }

  function LowerString(s: string): (r: string)
    ensures |r| == |s|
    ensures forall i :: 0 <= i < |s| ==> r[i] == Lower(s[i])
  {
    seq(|s|, i requires 0 <= i < |s| => Lower(s[i]))
  }

  /** Lower-casing commutes with taking a slice. */
  lemma LowerStringSlice(s: string, i: nat, j: nat)
    requires i <= j <= |s|
    ensures LowerString(s)[i..j] == LowerString(s[i..j])
  {
  }

  /** `s` ends with `suffix`. */
  predicate EndsWith(s: string, suffix: string) {
    |suffix| <= |s| && s[|s| - |suffix|..] == suffix
  }

  /** The parts, with `sep` between each two neighbours. */
  function Join(sep: string, parts: seq<string>): string
    decreases |parts|
  {
    if |parts| == 0 then ""
    else if |parts| == 1 then parts[0]
    else parts[0] + sep + Join(sep, parts[1..])
  }

  /** Total length of the parts. */
  function TotalLength(parts: seq<string>): nat
    decreases |parts|
  {
    if |parts| == 0 then 0 else |parts[0]| + TotalLength(parts[1..])
  }

  /** Joining drops nothing: every part and every separator is there. */
  lemma {:induction false} JoinLength(sep: string, parts: seq<string>)
    requires |parts| > 0
    ensures |Join(sep, parts)| == TotalLength(parts) + (|parts| - 1) * |sep|
    decreases |parts|
  {
    if |parts| > 1 {
      JoinLength(sep, parts[1..]);
    }
  }

  /** Joining two non-empty lists of parts puts one separator between the
      two joins. */
  lemma {:induction false} JoinConcat(sep: string, a: seq<string>, b: seq<string>)
    requires |a| > 0 && |b| > 0
    ensures Join(sep, a + b) == Join(sep, a) + sep + Join(sep, b)
    decreases |a|
  {
    if |a| == 1 {
      assert (a + b)[1..] == b;
    } else {
      assert (a + b)[1..] == a[1..] + b;
      JoinConcat(sep, a[1..], b);
    }
  }

  /** A character that is in neither the separator nor any part is not in
      the join. */
  lemma {:induction false} JoinAvoids(c: char, sep: string, parts: seq<string>)
    requires c !in sep
    requires forall i :: 0 <= i < |parts| ==> c !in parts[i]
    ensures c !in Join(sep, parts)
    decreases |parts|
  {
    if |parts| > 1 {
      JoinAvoids(c, sep, parts[1..]);
    }
  }

  /** `s` cut at every occurrence of `c`, as `str.split` with a
      one-character separator: always at least one piece, none holding
      `c`. */
  function Split(c: char, s: string): (r: seq<string>)
    ensures |r| >= 1
    ensures forall i :: 0 <= i < |r| ==> c !in r[i]
    decreases |s|
  {
    if |s| == 0 then [""]
    else
      var rest := Split(c, s[1..]);
      if s[0] == c then [""] + rest
      else [[s[0]] + rest[0]] + rest[1..]
  }

  /** Joining the pieces of a split with the separator gives back the
      string. */
  lemma {:induction false} JoinSplit(c: char, s: string)
    ensures Join([c], Split(c, s)) == s
    decreases |s|
  {
    if |s| > 0 {
      var rest := Split(c, s[1..]);
      JoinSplit(c, s[1..]);
      if s[0] == c {
        assert ([""] + rest)[1..] == rest;
      } else if |rest| == 1 {
        assert s == [s[0]] + s[1..];
      } else {
        var r := [[s[0]] + rest[0]] + rest[1..];
        assert r[1..] == rest[1..];
        assert s == [s[0]] + s[1..];
      }
    }
  }

  /** Splitting a join of separator-free parts gives back the parts. */
  lemma {:induction false} SplitJoin(c: char, parts: seq<string>)
    requires |parts| >= 1
    requires forall i :: 0 <= i < |parts| ==> c !in parts[i]
    ensures Split(c, Join([c], parts)) == parts
    decreases |parts|
  {
    if |parts| == 1 {
      SplitFreePrefix(c, parts[0], "");
      assert parts[0] + "" == parts[0];
    } else {
      var tail := Join([c], parts[1..]);
      SplitJoin(c, parts[1..]);
      assert Join([c], parts) == parts[0] + ([c] + tail);
      SplitFreePrefix(c, parts[0], [c] + tail);
      assert ([c] + tail)[0] == c && ([c] + tail)[1..] == tail;
      assert Split(c, [c] + tail) == [""] + parts[1..];
      assert parts[0] + "" == parts[0];
      assert parts == [parts[0]] + parts[1..];
    }
  }

  /** A separator-free prefix glues onto the first piece of the rest. */
  lemma {:induction false} SplitFreePrefix(c: char, w: string, t: string)
    requires c !in w
    ensures Split(c, w + t) == [w + Split(c, t)[0]] + Split(c, t)[1..]
    decreases |w|
  {
    if |w| == 0 {
      var st := Split(c, t);
      assert w + t == t && w + st[0] == st[0];
      assert st == [st[0]] + st[1..];
    } else {
      var st := Split(c, t);
      assert (w + t)[0] == w[0] && w[0] != c;
      assert (w + t)[1..] == w[1..] + t;
      SplitFreePrefix(c, w[1..], t);
      var rest := Split(c, w[1..] + t);
      assert rest[0] == w[1..] + st[0] && rest[1..] == st[1..];
      assert Split(c, w + t) == [[w[0]] + rest[0]] + rest[1..];
      assert [w[0]] + (w[1..] + st[0]) == w + st[0];
    }
  }

  /** Each line followed by a newline, as a file written one line at a
      time. */
  function Unlines(lines: seq<string>): string
    decreases |lines|
  {
    if |lines| == 0 then "" else lines[0] + "\n" + Unlines(lines[1..])
  }

  lemma {:induction false} UnlinesConcat(a: seq<string>, b: seq<string>)
    ensures Unlines(a + b) == Unlines(a) + Unlines(b)
    decreases |a|
  {
    if |a| == 0 {
      assert a + b == b;
    } else {
      assert (a + b)[1..] == a[1..] + b;
      UnlinesConcat(a[1..], b);
    }
  }

  lemma UnlinesFour(a: string, b: string, c: string, d: string)
    ensures Unlines([a, b, c, d]) == a + "\n" + b + "\n" + c + "\n" + d + "\n"
  {
    assert [a, b, c, d][1..] == [b, c, d];
    assert [b, c, d][1..] == [c, d];
    assert [c, d][1..] == [d];
    assert [d][1..] == [];
    assert Unlines([d]) == d + "\n" + "";
    assert Unlines([c, d]) == c + "\n" + (d + "\n");
    assert Unlines([b, c, d]) == b + "\n" + (c + "\n" + d + "\n");
    assert Unlines([a, b, c, d]) == a + "\n" + (b + "\n" + c + "\n" + d + "\n");
  }

  /** Newline-terminated lines are the lines joined by newlines, plus an
      empty last piece after the final newline. */
  lemma {:induction false} UnlinesIsJoin(lines: seq<string>)
    ensures Unlines(lines) == Join("\n", lines + [""])
    decreases |lines|
  {
    if |lines| > 0 {
      UnlinesIsJoin(lines[1..]);
      assert (lines + [""])[1..] == lines[1..] + [""];
    }
  }
}
