/** Naming a stdio MCP server from the command line that started it
    (`mcphawk/stdio_server_detector_fallback.py`), used when no `initialize`
    exchange was captured.

    `ExtractServerName` tries five case-insensitive patterns in turn
    (`mcp-server-NAME`, `NAME-mcp-server`, `mcp-NAME`, `NAME-mcp`, and any
    text mentioning `mcp`), where every `-` may also be `_`, and turns the
    name's words into a title. `DetectServerFromCommand` applies it to the
    module after a `python -m`, then to the executable's stem, then to the
    first `.py` script that yields a name. */
module ServerName {
  import opened Wrappers
  import Seqs

  // ---------------------------------------------------------------------
  // The regular-expression pieces

  /** One of the characters of the class `[-_]`. */
  predicate IsSep(c: char) {
    c == '-' || c == '_'
  }

  predicate SepFree(w: string) {
    forall i :: 0 <= i < |w| ==> !IsSep(w[i])
  }

  /** `s` matches the fixed pattern `pat` under `re.IGNORECASE`, where each
      `-` of `pat` stands for `[-_]` and every other character of `pat` is a
      lower-case letter. */
  predicate Fits(s: string, pat: string) {
    |s| == |pat| &&
    forall i :: 0 <= i < |s| ==>
      if pat[i] == '-' then IsSep(s[i]) else Seqs.LowerChar(s[i]) == pat[i]
  }

  /** What the group of `(.+)$` captures from `t`: `.` stops at a line feed,
      and `$` matches at the end or just before a final line feed. */
  function LineTail(t: string): (r: Option<string>)
    ensures r.Some? ==> |r.value| > 0 && '\n' !in r.value
    ensures r.Some? ==> t == r.value || t == r.value + "\n"
  {
    if |t| > 0 && '\n' !in t then Some(t)
    else if |t| > 1 && t[|t| - 1] == '\n' && '\n' !in t[..|t| - 1] then Some(t[..|t| - 1])
    else None
  }

  /** Every non-empty line, with or without its final line feed, is captured whole. */
  lemma LineTailOf(u: string)
    requires |u| > 0 && '\n' !in u
    ensures LineTail(u) == Some(u) && LineTail(u + "\n") == Some(u)
  {
    assert (u + "\n")[..|u|] == u;
  }

  /** The group of `^PAT(.+)$` matched against `t`. */
  function AfterPrefix(t: string, pat: string): (r: Option<string>)
    ensures r.Some? ==> |t| > |pat| && Fits(t[..|pat|], pat) && LineTail(t[|pat|..]) == r
  {
    if |t| >= |pat| && Fits(t[..|pat|], pat) then LineTail(t[|pat|..]) else None
  }

  /** The group of `^(.+?)PAT$` matched against `t`: the lazy group takes the
      shortest head, so a match before a final line feed is preferred. */
  function BeforeSuffix(t: string, pat: string): (r: Option<string>)
    ensures r.Some? ==> |r.value| > 0 && '\n' !in r.value
    ensures r.Some? ==> (|r.value| + |pat| <= |t| && Seqs.StartsWith(t, r.value)
      && Fits(t[|r.value|..|r.value| + |pat|], pat)
      && (t == t[..|r.value| + |pat|] || t == t[..|r.value| + |pat|] + "\n"))
  {
    var n := |pat|;
    if |t| > n + 1 && t[|t| - 1] == '\n' && Fits(t[|t| - 1 - n..|t| - 1], pat)
      && '\n' !in t[..|t| - 1 - n]
    then
      assert t == t[..|t| - 1] + "\n";
      Some(t[..|t| - 1 - n])
    else if |t| > n && Fits(t[|t| - n..], pat) && '\n' !in t[..|t| - n] then
      Some(t[..|t| - n])
    else None
  }

  /** `re.split(r'[-_]', s)`: the pieces between the separators. */
  function SplitWords(s: string): (ws: seq<string>)
    ensures |ws| >= 1
    ensures forall k :: 0 <= k < |ws| ==> SepFree(ws[k])
    decreases |s|
  {
    if |s| == 0 then [""]
    else
      var rest := SplitWords(s[1..]);
      if IsSep(s[0]) then [""] + rest
      else
        var w := [s[0]] + rest[0];
        assert SepFree(w) by {
          forall i | 0 <= i < |w| ensures !IsSep(w[i]) {
            if i > 0 { assert w[i] == rest[0][i - 1]; }
          }
        }
        [w] + rest[1..]
  }

  /** A word of a name: non-empty, on one line, without separators. */
  predicate Word(w: string) {
    |w| > 0 && '\n' !in w && SepFree(w)
  }

  predicate Words(ws: seq<string>) {
    |ws| > 0 && forall k :: 0 <= k < |ws| ==> Word(ws[k])
  }

  /** `' '.join(word.capitalize() for word in words)`. */
  function Title(ws: seq<string>): string {
    Seqs.Join(seq(|ws|, k requires 0 <= k < |ws| => Seqs.Capitalize(ws[k])), " ")
  }

  /** The words of pattern 5: empty pieces dropped, `mcp` in any case
      written `MCP`, every other word capitalized. */
  function Formatted(ws: seq<string>): (r: seq<string>)
    ensures |r| <= |ws|
    ensures forall k :: 0 <= k < |r| ==> |r[k]| > 0
  {
    if |ws| == 0 then []
    else if ws[0] == "" then Formatted(ws[1..])
    else [if Seqs.Lower(ws[0]) == "mcp" then "MCP" else Seqs.Capitalize(ws[0])] + Formatted(ws[1..])
  }

  // ---------------------------------------------------------------------
  // extract_server_name

  predicate MentionsMcp(text: string) {
    Seqs.Contains(Seqs.Lower(text), "mcp")
  }

  /** The one text that mentions `mcp` yet names nothing: `mcp-server` in
      any case and with either separator, possibly followed by a line feed. */
  predicate ServerOnly(text: string) {
    |text| >= 4 && Fits(text[..4], "mcp-")
    && (Seqs.Lower(text[4..]) == "server" || Seqs.Lower(text[4..]) == "server\n")
  }

  function ExtractServerName(text: string): (r: Option<string>)
    ensures r.Some? ==> |r.value| > 0
  {
    if |text| == 0 then None
    else
      var p1 := AfterPrefix(text, "mcp-server-");
      if p1.Some? then Some("MCP " + Title(SplitWords(p1.value)) + " Server")
      else
        var p2 := BeforeSuffix(text, "-mcp-server");
        if p2.Some? then Some(Title(SplitWords(p2.value)) + " MCP Server")
        else
          var p3 := AfterPrefix(text, "mcp-");
          if p3.Some? then
            if Seqs.Lower(p3.value) == "server" then None
            else Some("MCP " + Title(SplitWords(p3.value)))
          else
            var p4 := BeforeSuffix(text, "-mcp");
            if p4.Some? then Some(Title(SplitWords(p4.value)) + " MCP")
            else if MentionsMcp(text) then
              var ws := Formatted(SplitWords(text));
              assert |ws| > 0 by { FormattedKeepsMcp(text); }
              Some(Seqs.Join(ws, " "))
            else None
  }

  /** The piece of `text` holding an occurrence of `mcp` survives the filter of pattern 5. */
  lemma FormattedKeepsMcp(text: string)
    requires MentionsMcp(text)
    ensures |Formatted(SplitWords(text))| > 0
  {
    var i :| 0 <= i <= |text| - 3 && Seqs.OccursAt(Seqs.Lower(text), "mcp", i);
    assert Seqs.LowerChar(text[i]) == 'm';
    WordAt(text, i);
  }

  /** A non-separator character of `s` leaves a non-empty piece after the filter. */
  lemma {:induction false} WordAt(s: string, i: nat)
    requires i < |s| && !IsSep(s[i])
    ensures |Formatted(SplitWords(s))| > 0
    decreases i
  {
    var rest := SplitWords(s[1..]);
    if i == 0 {
      if !IsSep(s[0]) {
        assert SplitWords(s)[0] == [s[0]] + rest[0];
      }
    } else if IsSep(s[0]) {
      WordAt(s[1..], i - 1);
      assert SplitWords(s) == [""] + rest;
      assert SplitWords(s)[1..] == rest;
    } else {
      assert SplitWords(s)[0] == [s[0]] + rest[0];
    }
  }

  // ---------------------------------------------------------------------
  // When no name comes out

  /** A match of a pattern holding `mcp` puts `mcp` in the lower-cased text. */
  lemma FitsMentions(t: string, a: nat, pat: string, j: nat)
    requires a + |pat| <= |t| && Fits(t[a..a + |pat|], pat)
    requires j + 3 <= |pat| && pat[j..j + 3] == "mcp"
    ensures MentionsMcp(t)
  {
    var l := Seqs.Lower(t);
    forall k | 0 <= k < 3 ensures l[a + j + k] == "mcp"[k] {
      assert t[a..a + |pat|][j + k] == t[a + j + k];
      assert pat[j..j + 3][k] == pat[j + k];
    }
    assert l[a + j..a + j + 3] == "mcp";
    assert Seqs.OccursAt(l, "mcp", a + j);
  }

  /** A character whose lower-case form is not a line feed is not one. */
  lemma LowerKeepsLineFeed(s: string)
    ensures forall i :: 0 <= i < |s| ==> (Seqs.Lower(s)[i] == '\n' <==> s[i] == '\n')
  {
  }

  /** Pattern 3's exception, read off its captured group. */
  lemma ServerOnlyOfTail(text: string, x: string)
    requires |text| >= 4 && Fits(text[..4], "mcp-") && '\n' !in x
    requires text[4..] == x || text[4..] == x + "\n"
    ensures ServerOnly(text) <==> Seqs.Lower(x) == "server"
  {
    var l := Seqs.Lower(x);
    var lt := Seqs.Lower(text[4..]);
    LowerKeepsLineFeed(x);
    if text[4..] == x + "\n" {
      assert lt == l + "\n";
      assert lt[..|l|] == l;
      assert lt[|l|] == '\n';
      assert "server\n"[..6] == "server";
    } else {
      assert lt == l;
      assert |l| == 7 ==> l[6] != '\n';
    }
  }

  /** A match of `^PAT(.+)$`, where `PAT` begins with `mcp`, mentions `mcp`. */
  lemma PrefixMentions(text: string, pat: string)
    requires |pat| >= 3 && pat[..3] == "mcp"
    ensures AfterPrefix(text, pat).Some? ==> MentionsMcp(text)
  {
    if AfterPrefix(text, pat).Some? {
      FitsMentions(text, 0, pat, 0);
    }
  }

  /** A match of `^(.+?)PAT$`, where `PAT` is a separator and then `mcp`..., mentions `mcp`. */
  lemma SuffixMentions(text: string, pat: string)
    requires |pat| >= 4 && pat[1..4] == "mcp"
    ensures BeforeSuffix(text, pat).Some? ==> MentionsMcp(text)
  {
    var r := BeforeSuffix(text, pat);
    if r.Some? {
      FitsMentions(text, |r.value|, pat, 1);
    }
  }

  /** A name that comes out mentions `mcp`. */
  lemma NameMentionsMcp(text: string)
    ensures ExtractServerName(text).Some? ==> MentionsMcp(text)
  {
    PrefixMentions(text, "mcp-server-");
    SuffixMentions(text, "-mcp-server");
    PrefixMentions(text, "mcp-");
    SuffixMentions(text, "-mcp");
  }

  /** `mcp-server` names nothing. */
  lemma ServerOnlyNamesNothing(text: string)
    requires ServerOnly(text)
    ensures ExtractServerName(text).None?
  {
    var rest := text[4..];
    var l := Seqs.Lower(rest);
    LowerKeepsLineFeed(rest);
    forall i | 0 <= i < 6 ensures rest[i] != '\n' {
      assert l[i] == "server"[i];
    }
    if |rest| == 6 {
      LineTailOf(rest);
      ServerOnlyOfTail(text, rest);
    } else {
      var x := rest[..6];
      assert rest == x + "\n";
      LineTailOf(x);
      ServerOnlyOfTail(text, x);
    }
  }

  /** A text mentioning `mcp` that names nothing is `mcp-server`. */
  lemma NothingNamedMeansServerOnly(text: string)
    requires ExtractServerName(text).None? && MentionsMcp(text)
    ensures ServerOnly(text)
  {
    var p3 := AfterPrefix(text, "mcp-");
    if p3.Some? {
      ServerOnlyOfTail(text, p3.value);
    }
  }

  /** No name comes out exactly when the text does not mention `mcp` (in any
      case), or when it is `mcp-server` itself. */
  lemma ExtractNoneIff(text: string)
    ensures ExtractServerName(text).None? <==> !MentionsMcp(text) || ServerOnly(text)
  {
    NameMentionsMcp(text);
    if ServerOnly(text) {
      ServerOnlyNamesNothing(text);
    }
    if ExtractServerName(text).None? && MentionsMcp(text) {
      NothingNamedMeansServerOnly(text);
    }
  }

  /** The test suite's `mcp-server`: it names nothing. */
  lemma McpServerAloneNamesNothing()
    ensures ExtractServerName("mcp-server") == None
  {
    var t := "mcp-server";
    assert t[..4] == "mcp-";
    assert Fits(t[..4], "mcp-");
    assert t[4..] == "server";
    assert Seqs.Lower("server") == "server";
    ExtractNoneIff(t);
  }

  // ---------------------------------------------------------------------
  // Which pattern names a text

  /** Every name is split back into the words it was joined from. */
  lemma {:induction false} SplitWordsPrefix(w: string, t: string)
    requires SepFree(w)
    ensures SplitWords(w + t) == [w + SplitWords(t)[0]] + SplitWords(t)[1..]
    decreases |w|
  {
    if |w| == 0 {
      assert w + t == t;
      assert w + SplitWords(t)[0] == SplitWords(t)[0];
      assert SplitWords(t) == [SplitWords(t)[0]] + SplitWords(t)[1..];
    } else {
      var s := SplitWords(t);
      assert SepFree(w[1..]) by {
        forall i | 0 <= i < |w[1..]| ensures !IsSep(w[1..][i]) {
          assert w[1..][i] == w[i + 1];
        }
      }
      SplitWordsPrefix(w[1..], t);
      assert (w + t)[1..] == w[1..] + t;
      assert (w + t)[0] == w[0];
      assert [w[0]] + (w[1..] + s[0]) == w + s[0];
    }
  }

  /** Joining words with one separator and splitting again gives the words back. */
  lemma {:induction false} SplitJoin(ws: seq<string>, c: char)
    requires |ws| >= 1 && IsSep(c)
    requires forall k :: 0 <= k < |ws| ==> SepFree(ws[k])
    ensures SplitWords(Seqs.Join(ws, [c])) == ws
    decreases |ws|
  {
    if |ws| == 1 {
      SplitWordsPrefix(ws[0], "");
      assert ws[0] + "" == ws[0];
    } else {
      var tail := Seqs.Join(ws[1..], [c]);
      assert Seqs.Join(ws, [c]) == ws[0] + ([c] + tail);
      SplitJoin(ws[1..], c);
      SplitWordsPrefix(ws[0], [c] + tail);
      assert ([c] + tail)[1..] == tail;
      assert SplitWords([c] + tail) == [""] + ws[1..];
      assert ws[0] + "" == ws[0];
      assert [ws[0]] + ws[1..] == ws;
    }
  }

  /** A text built from words is one non-empty line. */
  lemma {:induction false} JoinedLine(ws: seq<string>, c: char)
    requires Words(ws) && IsSep(c)
    ensures var j := Seqs.Join(ws, [c]);
      |j| > 0 && '\n' !in j && (|ws| == 1 ==> j == ws[0])
    decreases |ws|
  {
    if |ws| > 1 {
      assert Words(ws[1..]) by {
        forall k | 0 <= k < |ws[1..]| ensures Word(ws[1..][k]) {
          assert ws[1..][k] == ws[k + 1];
        }
      }
      JoinedLine(ws[1..], c);
      assert Seqs.Join(ws, [c]) == ws[0] + [c] + Seqs.Join(ws[1..], [c]);
    }
  }

  /** A text built from words begins with the first word and then a separator. */
  lemma {:induction false} JoinedHead(ws: seq<string>, c: char)
    requires Words(ws) && IsSep(c)
    ensures var j := Seqs.Join(ws, [c]);
      Seqs.StartsWith(j, ws[0]) && (|ws| > 1 ==> |j| > |ws[0]| && j[|ws[0]|] == c)
  {
    if |ws| > 1 {
      var j := ws[0] + [c] + Seqs.Join(ws[1..], [c]);
      assert Seqs.Join(ws, [c]) == j;
      assert j[..|ws[0]|] == ws[0];
    }
  }

  /** A text built from words ends with the last word, after a separator. */
  lemma {:induction false} JoinedTail(ws: seq<string>, c: char)
    requires Words(ws) && IsSep(c)
    ensures var j := Seqs.Join(ws, [c]); var last := ws[|ws| - 1];
      Seqs.EndsWith(j, last) && (|ws| > 1 ==> |j| > |last| && j[|j| - |last| - 1] == c)
    decreases |ws|
  {
    if |ws| > 1 {
      var last := ws[|ws| - 1];
      var rest := ws[1..];
      assert Words(rest) by {
        forall k | 0 <= k < |rest| ensures Word(rest[k]) {
          assert rest[k] == ws[k + 1];
        }
      }
      assert rest[|rest| - 1] == last;
      JoinedTail(rest, c);
      var tail := Seqs.Join(rest, [c]);
      var j := ws[0] + [c] + tail;
      assert Seqs.Join(ws, [c]) == j;
      assert j[|j| - |tail|..] == tail;
      assert j[|j| - |last|..] == tail[|tail| - |last|..];
      if |ws| == 2 {
        assert tail == last;
        assert j[|j| - |last| - 1] == j[|ws[0]|];
      } else {
        assert j[|j| - |last| - 1] == tail[|tail| - |last| - 1];
      }
    }
  }

  /** What a text built from words looks like as a whole and at its two ends. */
  lemma {:induction false} JoinedWords(ws: seq<string>, c: char)
    requires Words(ws) && IsSep(c)
    ensures var j := Seqs.Join(ws, [c]);
      |j| > 0 && '\n' !in j && Seqs.StartsWith(j, ws[0]) && Seqs.EndsWith(j, ws[|ws| - 1])
      && (|ws| == 1 ==> j == ws[0])
      && (|ws| > 1 ==> |j| > |ws[0]| && j[|ws[0]|] == c && j[|j| - |ws[|ws| - 1]| - 1] == c)
  {
    JoinedLine(ws, c);
    JoinedHead(ws, c);
    JoinedTail(ws, c);
  }

  predicate Letters(lit: string) {
    forall i :: 0 <= i < |lit| ==> 'a' <= lit[i] <= 'z'
  }

  /** A word at the head of `t` that is not `lit` keeps `lit` followed by a separator from matching there. */
  lemma HeadBlocks(t: string, w: string, lit: string)
    requires Seqs.StartsWith(t, w) && SepFree(w) && (|t| > |w| ==> IsSep(t[|w|]))
    requires Letters(lit) && Seqs.Lower(w) != lit
    ensures !(|t| > |lit| && Fits(t[..|lit| + 1], lit + "-"))
  {
    var pat := lit + "-";
    if |t| > |lit| {
      var s := t[..|lit| + 1];
      if |w| < |lit| {
        assert s[|w|] == t[|w|] && pat[|w|] == lit[|w|];
      } else if |w| > |lit| {
        assert s[|lit|] == w[|lit|];
      }
    }
  }

  /** A word at the tail of `t` that is not `lit` keeps a separator followed by `lit` from matching there. */
  lemma TailBlocks(t: string, w: string, lit: string)
    requires Seqs.EndsWith(t, w) && SepFree(w) && (|t| > |w| ==> IsSep(t[|t| - |w| - 1]))
    requires Letters(lit) && Seqs.Lower(w) != lit
    ensures !(|t| > |lit| && Fits(t[|t| - |lit| - 1..], "-" + lit))
  {
    var pat := "-" + lit;
    var n := |t|;
    if |t| > |lit| {
      var s := t[n - |lit| - 1..];
      if |w| < |lit| {
        assert s[|lit| - |w|] == t[n - |w| - 1] && pat[|lit| - |w|] == lit[|lit| - |w| - 1];
      } else if |w| > |lit| {
        assert s[0] == w[|w| - |lit| - 1];
      }
    }
  }

  /** A match of a long prefix pattern is a match of each shorter prefix of it. */
  lemma FitsHead(t: string, long: string, short: string)
    requires |short| <= |long| && long[..|short|] == short
    ensures |t| >= |long| && Fits(t[..|long|], long) ==> Fits(t[..|short|], short)
  {
    if |t| >= |long| && Fits(t[..|long|], long) {
      forall i | 0 <= i < |short| ensures t[..|long|][i] == t[..|short|][i] && long[i] == short[i] { }
    }
  }

  /** A match of a long suffix pattern is a match of each shorter suffix of it. */
  lemma FitsTail(t: string, long: string, short: string)
    requires |short| <= |long| && long[|long| - |short|..] == short
    ensures |t| >= |long| && Fits(t[|t| - |long|..], long) ==> Fits(t[|t| - |short|..], short)
  {
    var d := |long| - |short|;
    if |t| >= |long| && Fits(t[|t| - |long|..], long) {
      forall i | 0 <= i < |short|
        ensures t[|t| - |long|..][d + i] == t[|t| - |short|..][i] && long[d + i] == short[i]
      { }
    }
  }

  /** A match of a suffix pattern fixes the text's last character up to case. */
  lemma FitsLast(t: string, pat: string)
    requires |pat| > 0
    ensures |t| >= |pat| && Fits(t[|t| - |pat|..], pat) ==> Seqs.LowerChar(t[|t| - 1]) == pat[|pat| - 1] || pat[|pat| - 1] == '-'
  {
    if |t| >= |pat| && Fits(t[|t| - |pat|..], pat) {
      assert t[|t| - |pat|..][|pat| - 1] == t[|t| - 1];
    }
  }

  /** Pattern 1 names `mcp-server-WORDS` as `MCP Words Server`. */
  lemma {:induction false} McpServerPrefixNames(m: string, ws: seq<string>, c: char)
    requires Fits(m, "mcp-server-") && Words(ws) && IsSep(c)
    ensures ExtractServerName(m + Seqs.Join(ws, [c])) == Some("MCP " + Title(ws) + " Server")
  {
    var j := Seqs.Join(ws, [c]);
    var t := m + j;
    JoinedLine(ws, c);
    SplitJoin(ws, c);
    assert t[..|m|] == m && t[|m|..] == j;
    McpServerPrefixApplies(t, j, ws);
  }

  /** Pattern 1 applies to `mcp-server-` followed by one line. */
  lemma McpServerPrefixApplies(t: string, x: string, ws: seq<string>)
    requires |t| >= 11 && Fits(t[..11], "mcp-server-") && t[11..] == x && |x| > 0 && '\n' !in x
    requires SplitWords(x) == ws
    ensures ExtractServerName(t) == Some("MCP " + Title(ws) + " Server")
  {
    LineTailOf(x);
  }

  /** The first word of a text built as `WORDS` + `rest`, followed by a separator. */
  lemma {:induction false} HeadWord(ws: seq<string>, c: char, rest: string)
    requires Words(ws) && IsSep(c) && |rest| > 0 && IsSep(rest[0])
    ensures var t := Seqs.Join(ws, [c]) + rest;
      Seqs.StartsWith(t, ws[0]) && |t| > |ws[0]| && IsSep(t[|ws[0]|])
  {
    var j := Seqs.Join(ws, [c]);
    JoinedWords(ws, c);
    var t := j + rest;
    assert t[..|ws[0]|] == j[..|ws[0]|];
    if |ws| == 1 {
      assert t[|ws[0]|] == rest[0];
    } else {
      assert t[|ws[0]|] == j[|ws[0]|];
    }
  }

  /** Texts that begin with a word other than `mcp` match neither pattern 1 nor pattern 3. */
  lemma {:induction false} NoMcpHead(t: string, w: string)
    requires Seqs.StartsWith(t, w) && SepFree(w) && (|t| > |w| ==> IsSep(t[|w|]))
    requires Seqs.Lower(w) != "mcp"
    ensures AfterPrefix(t, "mcp-server-").None? && AfterPrefix(t, "mcp-").None?
  {
    PatternWords();
    HeadBlocks(t, w, "mcp");
    assert "mcp" + "-" == "mcp-";
    FitsHead(t, "mcp-server-", "mcp-");
  }

  /** Pattern 2 names `WORDS-mcp-server` as `Words MCP Server`, unless the
      text also begins `mcp-server-`, which pattern 1 takes first. */
  lemma {:induction false} McpServerSuffixNames(ws: seq<string>, c: char, m: string)
    requires Words(ws) && IsSep(c) && Fits(m, "-mcp-server")
    requires Seqs.Lower(ws[0]) != "mcp"
    ensures ExtractServerName(Seqs.Join(ws, [c]) + m) == Some(Title(ws) + " MCP Server")
  {
    var j := Seqs.Join(ws, [c]);
    var t := j + m;
    JoinedLine(ws, c);
    SplitJoin(ws, c);
    HeadWord(ws, c, m);
    NoMcpHead(t, ws[0]);
    assert t[|t| - 11..] == m && t[..|t| - 11] == j;
    McpServerSuffixApplies(t, j, ws);
  }

  /** Pattern 2 applies to one line ending in `-mcp-server` once pattern 1 is ruled out. */
  lemma McpServerSuffixApplies(t: string, x: string, ws: seq<string>)
    requires |t| == |x| + 11 && t[..|x|] == x && Fits(t[|x|..], "-mcp-server") && |x| > 0 && '\n' !in x
    requires AfterPrefix(t, "mcp-server-").None? && SplitWords(x) == ws
    ensures ExtractServerName(t) == Some(Title(ws) + " MCP Server")
  {
    assert t[|x|..][10] == t[|t| - 1];
    assert Seqs.LowerChar(t[|t| - 1]) == 'r';
  }

  /** After `mcp-`, a first word other than `server` rules out pattern 1. */
  lemma {:induction false} NotServerHead(m: string, ws: seq<string>, c: char)
    requires Fits(m, "mcp-") && Words(ws) && IsSep(c)
    requires Seqs.Lower(ws[0]) != "server"
    ensures AfterPrefix(m + Seqs.Join(ws, [c]), "mcp-server-").None?
  {
    var j := Seqs.Join(ws, [c]);
    var t := m + j;
    JoinedHead(ws, c);
    assert t[4..] == j;
    NoServerHead(t, j, ws[0]);
  }

  /** A text `mcp-` + `j` whose first word is not `server` does not begin `mcp-server-`. */
  lemma {:induction false} NoServerHead(t: string, j: string, w: string)
    requires |t| >= 4 && t[4..] == j && Seqs.StartsWith(j, w) && SepFree(w)
    requires (|j| > |w| ==> IsSep(j[|w|])) && Seqs.Lower(w) != "server"
    ensures !(|t| >= 11 && Fits(t[..11], "mcp-server-"))
  {
    PatternWords();
    HeadBlocks(j, w, "server");
    assert "server" + "-" == "server-";
    if |t| >= 11 {
      FitsTail(t[..11], "mcp-server-", "server-");
      assert t[..11][4..] == j[..7];
    }
  }

  /** The patterns' words are lower-case letters. */
  lemma PatternWords()
    ensures Letters("mcp") && Letters("server")
  {
  }

  /** A text whose last word is not `server` does not match pattern 2. */
  lemma {:induction false} NoServerTail(t: string, last: string)
    requires Seqs.EndsWith(t, last) && SepFree(last) && |t| > |last| && IsSep(t[|t| - |last| - 1])
    requires t[|t| - 1] != '\n' && Seqs.Lower(last) != "server"
    ensures BeforeSuffix(t, "-mcp-server").None?
  {
    assert !(|t| > 6 && Fits(t[|t| - 7..], "-server")) by {
      PatternWords();
      TailBlocks(t, last, "server");
      assert "-" + "server" == "-server";
    }
    FitsTail(t, "-mcp-server", "-server");
    SuffixNone(t, "-mcp-server");
  }

  /** `^(.+?)PAT$` does not match a text that neither ends in a line feed nor in `PAT`. */
  lemma SuffixNone(t: string, pat: string)
    ensures |t| > 0 && t[|t| - 1] != '\n' && !(|t| >= |pat| && Fits(t[|t| - |pat|..], pat))
      ==> BeforeSuffix(t, pat).None?
  {
  }

  /** A last word other than `server` rules out pattern 2. */
  lemma {:induction false} NotServerTail(m: string, ws: seq<string>, c: char)
    requires |m| > 0 && IsSep(m[|m| - 1]) && Words(ws) && IsSep(c)
    requires Seqs.Lower(ws[|ws| - 1]) != "server"
    ensures BeforeSuffix(m + Seqs.Join(ws, [c]), "-mcp-server").None?
  {
    var j := Seqs.Join(ws, [c]);
    var last := ws[|ws| - 1];
    var t := m + j;
    assert Seqs.EndsWith(t, last) && |t| > |last| && IsSep(t[|t| - |last| - 1]) && t[|t| - 1] != '\n' by {
      JoinedLine(ws, c);
      JoinedTail(ws, c);
      SepBeforeTail(m, j, last);
    }
    assert SepFree(last);
    NoServerTail(t, last);
  }

  /** Putting a text ending in a separator in front of `j` keeps `j`'s last word and the separator before it. */
  lemma SepBeforeTail(m: string, j: string, last: string)
    requires |m| > 0 && IsSep(m[|m| - 1]) && |j| > 0 && '\n' !in j && Seqs.EndsWith(j, last)
    requires |j| > |last| ==> IsSep(j[|j| - |last| - 1])
    ensures var t := m + j;
      Seqs.EndsWith(t, last) && |t| > |last| && IsSep(t[|t| - |last| - 1]) && t[|t| - 1] != '\n'
  {
    var t := m + j;
    assert t[|m|..] == j;
    assert t[|t| - |last|..] == j[|j| - |last|..];
    assert t[|t| - 1] == j[|j| - 1];
    if |j| == |last| {
      assert t[|t| - |last| - 1] == m[|m| - 1];
    } else {
      assert t[|t| - |last| - 1] == j[|j| - |last| - 1];
    }
  }

  /** Words joined by a separator spell a single word only when there is one of them. */
  lemma {:induction false} JoinedNotWord(ws: seq<string>, c: char, lit: string)
    requires Words(ws) && IsSep(c) && Letters(lit) && Seqs.Lower(ws[0]) != lit
    ensures Seqs.Lower(Seqs.Join(ws, [c])) != lit
  {
    var j := Seqs.Join(ws, [c]);
    JoinedWords(ws, c);
    if |ws| > 1 {
      var k := |ws[0]|;
      assert Seqs.Lower(j)[k] == c;
      if k < |lit| {
        assert !('a' <= c <= 'z');
      }
    }
  }

  /** Pattern 3 applies once patterns 1 and 2 are ruled out. */
  lemma McpPrefixApplies(t: string, x: string, ws: seq<string>)
    requires |t| >= 4 && Fits(t[..4], "mcp-") && t[4..] == x && |x| > 0 && '\n' !in x
    requires AfterPrefix(t, "mcp-server-").None? && BeforeSuffix(t, "-mcp-server").None?
    requires Seqs.Lower(x) != "server" && SplitWords(x) == ws
    ensures ExtractServerName(t) == Some("MCP " + Title(ws))
  {
    LineTailOf(x);
  }

  /** Pattern 3 names `mcp-WORDS` as `MCP Words`, unless the words begin
      with `server` (pattern 1) or end with `server` (pattern 2, or
      `mcp-server` itself). */
  lemma {:induction false} McpPrefixNames(m: string, ws: seq<string>, c: char)
    requires Fits(m, "mcp-") && Words(ws) && IsSep(c)
    requires Seqs.Lower(ws[0]) != "server" && Seqs.Lower(ws[|ws| - 1]) != "server"
    ensures ExtractServerName(m + Seqs.Join(ws, [c])) == Some("MCP " + Title(ws))
  {
    var j := Seqs.Join(ws, [c]);
    var t := m + j;
    assert |j| > 0 && '\n' !in j by {
      JoinedWords(ws, c);
    }
    PatternWords();
    JoinedNotWord(ws, c, "server");
    NotServerHead(m, ws, c);
    assert IsSep(m[3]);
    NotServerTail(m, ws, c);
    assert t[..4] == m && t[4..] == j;
    SplitJoin(ws, c);
    McpPrefixApplies(t, j, ws);
  }

  /** Pattern 4 names `WORDS-mcp` as `Words MCP`, unless the text begins with `mcp`. */
  lemma {:induction false} McpSuffixNames(ws: seq<string>, c: char, m: string)
    requires Words(ws) && IsSep(c) && Fits(m, "-mcp")
    requires Seqs.Lower(ws[0]) != "mcp"
    ensures ExtractServerName(Seqs.Join(ws, [c]) + m) == Some(Title(ws) + " MCP")
  {
    var j := Seqs.Join(ws, [c]);
    var t := j + m;
    JoinedLine(ws, c);
    SplitJoin(ws, c);
    HeadWord(ws, c, m);
    NoMcpHead(t, ws[0]);
    assert t[|t| - 4..] == m && t[..|t| - 4] == j;
    McpSuffixApplies(t, j, ws);
  }

  /** Pattern 4 applies to one line ending in `-mcp` once patterns 1 and 3 are ruled out. */
  lemma McpSuffixApplies(t: string, x: string, ws: seq<string>)
    requires |t| == |x| + 4 && t[..|x|] == x && Fits(t[|x|..], "-mcp") && |x| > 0 && '\n' !in x
    requires AfterPrefix(t, "mcp-server-").None? && AfterPrefix(t, "mcp-").None?
    requires SplitWords(x) == ws
    ensures ExtractServerName(t) == Some(Title(ws) + " MCP")
  {
    assert t[|x|..][3] == t[|t| - 1];
    assert Seqs.LowerChar(t[|t| - 1]) == 'p';
    FitsLast(t, "-mcp-server");
  }

  // ---------------------------------------------------------------------
  // detect_server_from_command

  /** `pathlib.Path(p).name` on POSIX: the last component, skipping empty
      components and `.`. */
  function PathName(p: string): (r: string)
    ensures '/' !in r
    decreases |p|
  {
    var k := Seqs.LastIndexOf(p, '/');
    var last := p[k + 1..];
    if last != "" && last != "." then last
    else if k < 0 then ""
    else PathName(p[..k])
  }

  /** The name after the last `/` is the path's name. */
  lemma PathNameOf(dir: string, n: string)
    requires '/' !in n && n != "" && n != "."
    ensures PathName(dir + "/" + n) == n
  {
    var p := dir + "/" + n;
    var k := Seqs.LastIndexOf(p, '/');
    assert p[|dir|] == '/';
    assert p[|dir| + 1..] == n;
  }

  /** `pathlib.Path(name).stem`: the name without its last suffix; a leading
      dot or a trailing dot starts no suffix. */
  function Stem(name: string): (r: string)
    ensures Seqs.StartsWith(name, r)
  {
    var i := Seqs.LastIndexOf(name, '.');
    if 0 < i < |name| - 1 then name[..i] else name
  }

  /** The stem of `n.ext` is `n`. */
  lemma StemOf(n: string, ext: string)
    requires |n| > 0 && |ext| > 0 && '.' !in ext
    ensures Stem(n + "." + ext) == n
  {
    var s := n + "." + ext;
    var i := Seqs.LastIndexOf(s, '.');
    assert s[|n|] == '.';
    assert s[..|n|] == n;
  }

  predicate IsPython(exeName: string) {
    exeName in ["python", "python3", "python3.exe", "python.exe"]
  }

  /** Python's `if name:` on an `Optional[str]`. */
  predicate Named(name: Option<string>) {
    name.Some? && |name.value| > 0
  }

  /** The dictionary the detector returns for a name. */
  function Info(name: string): map<string, string> {
    map["name" := name, "version" := "unknown"]
  }

  const HawkQuery := "MCPHawk Query Server"

  /** `python -m mcphawk mcp ...` starts the project's own query server. */
  predicate HawkQueryAt(command: seq<string>, i: int) {
    0 <= i && i + 2 < |command| && command[i + 1] == "mcphawk" && command[i + 2] == "mcp"
  }

  /** What argument `i` names as a `-m` flag: the query server for
      `-m mcphawk mcp`, otherwise whatever the module's name gives. */
  function ModuleName(command: seq<string>, i: int): Option<string> {
    if 1 <= i < |command| - 1 && command[i] == "-m" then
      if HawkQueryAt(command, i) then Some(HawkQuery) else ExtractServerName(command[i + 1])
    else None
  }

  /** What a script argument names: the name its stem gives when it ends in `.py`. */
  function ScriptName(arg: string): Option<string> {
    if Seqs.EndsWith(arg, ".py") then ExtractServerName(Stem(PathName(arg))) else None
  }

  /** The first entry from `i` on that passes Python's `if name:`. */
  function FirstNamed(names: seq<Option<string>>, i: nat): (r: Option<string>)
    ensures r.Some? <==> exists j :: i <= j < |names| && Named(names[j])
    ensures r.Some? ==> |r.value| > 0
    decreases |names| - i
  {
    if i >= |names| then None
    else if Named(names[i]) then names[i]
    else FirstNamed(names, i + 1)
  }

  /** The first entry that names something is the one taken. */
  lemma {:induction false} FirstNamedAt(names: seq<Option<string>>, i: nat, j: nat)
    requires i <= j < |names| && Named(names[j])
    requires forall k :: i <= k < j ==> !Named(names[k])
    ensures FirstNamed(names, i) == names[j]
    decreases j - i
  {
    if i < j {
      FirstNamedAt(names, i + 1, j);
    }
  }

  function DetectServerFromCommand(command: seq<string>): (r: Option<map<string, string>>)
    ensures |command| == 0 ==> r.None?
    ensures r.Some? ==> (r.value.Keys == {"name", "version"} && r.value["version"] == "unknown"
      && |r.value["name"]| > 0)
  {
    if |command| == 0 then None
    else
      var exeName := PathName(command[0]);
      var modules := seq(|command|, k requires 0 <= k < |command| => ModuleName(command, k));
      var fromModule := if IsPython(exeName) then FirstNamed(modules, 1) else None;
      if fromModule.Some? then Some(Info(fromModule.value))
      else
        var name := ExtractServerName(Stem(exeName));
        if Named(name) then Some(Info(name.value))
        else
          var scripts := seq(|command|, k requires 0 <= k < |command| => ScriptName(command[k]));
          var fromScript := FirstNamed(scripts, 1);
          if fromScript.Some? then Some(Info(fromScript.value)) else None
  }

  /** Under `python`, the first `-m` whose module names the server decides
      the name, and `-m mcphawk mcp` is the query server whatever follows. */
  lemma {:induction false} ModuleFlagNames(command: seq<string>, i: nat)
    requires |command| > 0 && IsPython(PathName(command[0]))
    requires 1 <= i < |command| && Named(ModuleName(command, i))
    requires forall j :: 1 <= j < i ==> !Named(ModuleName(command, j))
    ensures command[i] == "-m"
    ensures DetectServerFromCommand(command) == Some(Info(ModuleName(command, i).value))
    ensures HawkQueryAt(command, i) ==> DetectServerFromCommand(command) == Some(Info(HawkQuery))
  {
    var modules := seq(|command|, k requires 0 <= k < |command| => ModuleName(command, k));
    FirstNamedAt(modules, 1, i);
  }

  /** Without a naming `-m`, the executable's own stem is tried next. */
  lemma {:induction false} ExecutableNames(command: seq<string>, n: string)
    requires |command| > 0
    requires IsPython(PathName(command[0])) ==> forall j :: 1 <= j < |command| ==> !Named(ModuleName(command, j))
    requires ExtractServerName(Stem(PathName(command[0]))) == Some(n)
    ensures DetectServerFromCommand(command) == Some(Info(n))
  {
    var modules := seq(|command|, k requires 0 <= k < |command| => ModuleName(command, k));
    assert forall j :: 1 <= j < |modules| ==> modules[j] == ModuleName(command, j);
  }

  /** Failing both, the first script argument whose stem names the server decides. */
  lemma {:induction false} ScriptNames(command: seq<string>, i: nat, n: string)
    requires |command| > 0
    requires IsPython(PathName(command[0])) ==> forall j :: 1 <= j < |command| ==> !Named(ModuleName(command, j))
    requires !Named(ExtractServerName(Stem(PathName(command[0]))))
    requires 1 <= i < |command| && Seqs.EndsWith(command[i], ".py")
    requires ExtractServerName(Stem(PathName(command[i]))) == Some(n)
    requires forall j :: 1 <= j < i ==> !Named(ScriptName(command[j]))
    ensures DetectServerFromCommand(command) == Some(Info(n))
  {
    var modules := seq(|command|, k requires 0 <= k < |command| => ModuleName(command, k));
    assert forall j :: 1 <= j < |modules| ==> modules[j] == ModuleName(command, j);
    var scripts := seq(|command|, k requires 0 <= k < |command| => ScriptName(command[k]));
    FirstNamedAt(scripts, 1, i);
  }

  /** Nothing is detected exactly when no source of a name names anything. */
  lemma {:induction false} DetectNoneIff(command: seq<string>)
    requires |command| > 0
    ensures DetectServerFromCommand(command).None? <==>
      (IsPython(PathName(command[0])) ==> forall j :: 1 <= j < |command| ==> !Named(ModuleName(command, j)))
      && !Named(ExtractServerName(Stem(PathName(command[0]))))
      && forall j :: 1 <= j < |command| ==> !Named(ScriptName(command[j]))
  {
    var modules := seq(|command|, k requires 0 <= k < |command| => ModuleName(command, k));
    assert forall j :: 1 <= j < |modules| ==> modules[j] == ModuleName(command, j);
    var scripts := seq(|command|, k requires 0 <= k < |command| => ScriptName(command[k]));
    assert forall j :: 1 <= j < |scripts| ==> scripts[j] == ScriptName(command[j]);
  }

  // ---------------------------------------------------------------------
  // merge_server_info

  /** Python's truth value of an optional dictionary. */
  predicate Present(info: Option<map<string, string>>) {
    info.Some? && |info.value| > 0
  }

  /** Information from the `initialize` exchange wins over the guess from the command line. */
  function MergeServerInfo(detected: Option<map<string, string>>, fromProtocol: Option<map<string, string>>)
    : (r: Option<map<string, string>>)
    ensures Present(fromProtocol) ==> r == fromProtocol
    ensures !Present(fromProtocol) ==> r == detected
  {
    if Present(fromProtocol) then fromProtocol else detected
  }

  /** Merging is idempotent, and a detected name survives unless the protocol supplied one. */
  lemma MergeSettles(detected: Option<map<string, string>>, fromProtocol: Option<map<string, string>>)
    ensures MergeServerInfo(MergeServerInfo(detected, fromProtocol), fromProtocol)
      == MergeServerInfo(detected, fromProtocol)
    ensures Present(detected) ==> Present(MergeServerInfo(detected, fromProtocol))
  {
  }
}
