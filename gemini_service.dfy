/** Post-processing of the two text-generation calls (services/geminiService.ts).
    The call itself is a foreign network client; here its outcome is an input:
    either it threw, or it answered with a `text` that may be undefined. */
module GeminiService {
  import opened Types

  datatype Response = Failed | Answered(text: Option<string>)

  /** `response.text || ""`: an undefined text reads as the empty string. */
  function TextOrEmpty(text: Option<string>): (s: string)
    ensures text.Some? ==> s == text.value
    ensures text.None? ==> s == ""
  {
    match text
    case Some(t) => t
    case None => ""
  }

  // ---------------------------------------------------------------------
  // String.prototype.trim
  // ---------------------------------------------------------------------

  /** The characters ECMAScript's `trim` strips: WhiteSpace and LineTerminator. */
  predicate IsWhitespace(c: char) {
    var n := c as int;
    n == 0x09 || n == 0x0A || n == 0x0B || n == 0x0C || n == 0x0D || n == 0x20
    || n == 0xA0 || n == 0x1680 || (0x2000 <= n <= 0x200A)
    || n == 0x2028 || n == 0x2029 || n == 0x202F || n == 0x205F
    || n == 0x3000 || n == 0xFEFF
  }

  /** `s` with its leading whitespace removed. */
  function TrimStart(s: string): (r: string)
    ensures |r| <= |s| && r == s[|s| - |r|..]
    ensures forall i :: 0 <= i < |s| - |r| ==> IsWhitespace(s[i])
    ensures r == [] || !IsWhitespace(r[0])
  {
    if |s| > 0 && IsWhitespace(s[0]) then TrimStart(s[1..]) else s
  }

  /** `s` with its trailing whitespace removed. */
  function TrimEnd(s: string): (r: string)
    ensures |r| <= |s| && r == s[..|r|]
    ensures forall i :: |r| <= i < |s| ==> IsWhitespace(s[i])
    ensures r == [] || !IsWhitespace(r[|r| - 1])
  {
    if |s| > 0 && IsWhitespace(s[|s| - 1]) then TrimEnd(s[..|s| - 1]) else s
  }

  /** How many whitespace characters `s` starts with. */
  function LeadingSpace(s: string): (n: nat)
    ensures n <= |s|
    ensures forall i :: 0 <= i < n ==> IsWhitespace(s[i])
    ensures n == |s| || !IsWhitespace(s[n])
  {
    |s| - |TrimStart(s)|
  }

  /** `s.trim()`: the slice of `s` after its leading whitespace that drops only
      whitespace at the end, and keeps no whitespace at its ends. */
  function Trim(s: string): (r: string)
    ensures LeadingSpace(s) + |r| <= |s| && r == s[LeadingSpace(s)..LeadingSpace(s) + |r|]
    ensures forall i :: LeadingSpace(s) + |r| <= i < |s| ==> IsWhitespace(s[i])
    ensures r == [] || (!IsWhitespace(r[0]) && !IsWhitespace(r[|r| - 1]))
    ensures r == [] <==> forall i :: 0 <= i < |s| ==> IsWhitespace(s[i])
  {
    TrimEnd(TrimStart(s))
  }

  /** `line.trim().length > 0`, the filter applied to every line: the line
      does not consist of leading whitespace only, so its character at
      LeadingSpace(line) is not whitespace. */
  function NonBlank(line: string): (b: bool)
    ensures b <==> LeadingSpace(line) < |line|
  {
    |Trim(line)| > 0
  }

  // ---------------------------------------------------------------------
  // String.prototype.split('\n')
  // ---------------------------------------------------------------------

  /** `s.split('\n')`: the pieces between newline characters; the empty
      string gives one empty piece. */
  function Lines(s: string): (r: seq<string>)
    ensures |r| >= 1
    ensures forall j :: 0 <= j < |r| ==> '\n' !in r[j]
  {
    if |s| == 0 then [""]
    else
      var rest := Lines(s[1..]);
      if s[0] == '\n' then [""] + rest
      else [[s[0]] + rest[0]] + rest[1..]
  }

  /** `lines.join('\n')`, the inverse of `Lines`. */
  function JoinLines(lines: seq<string>): string
    requires |lines| >= 1
  {
    if |lines| == 1 then lines[0] else lines[0] + "\n" + JoinLines(lines[1..])
  }

  /** Splitting loses nothing: joining the pieces gives back the text. */
  lemma {:induction false} JoinLinesOfLines(s: string)
    ensures JoinLines(Lines(s)) == s
  {
    if |s| > 0 {
      var rest := Lines(s[1..]);
      JoinLinesOfLines(s[1..]);
      if s[0] == '\n' {
        assert Lines(s) == [""] + rest;
        assert Lines(s)[1..] == rest;
      } else {
        var r := Lines(s);
        assert r == [[s[0]] + rest[0]] + rest[1..];
        if |rest| == 1 {
          assert JoinLines(r) == [s[0]] + rest[0];
          assert s == [s[0]] + s[1..];
        } else {
          assert r[1..] == rest[1..];
          assert JoinLines(rest) == rest[0] + "\n" + JoinLines(rest[1..]);
          assert JoinLines(r) == ([s[0]] + rest[0]) + "\n" + JoinLines(rest[1..]);
          assert s == [s[0]] + s[1..];
        }
      }
    }
  }

  /** Splitting is also a left inverse of joining newline-free pieces. */
  lemma {:induction false} LinesOfJoinLines(lines: seq<string>)
    requires |lines| >= 1
    requires forall j :: 0 <= j < |lines| ==> '\n' !in lines[j]
    ensures Lines(JoinLines(lines)) == lines
  {
    if |lines| == 1 {
      LinesOfNewlineFree(lines[0]);
    } else {
      LinesOfJoinLines(lines[1..]);
      LinesOfPrefixed(lines[0], JoinLines(lines[1..]));
      assert [lines[0]] + lines[1..] == lines;
    }
  }

  lemma {:induction false} LinesOfNewlineFree(s: string)
    requires '\n' !in s
    ensures Lines(s) == [s]
  {
    if |s| > 0 {
      assert '\n' !in s[1..] by {
        forall c | c in s[1..] ensures c != '\n' { assert c in s; }
      }
      LinesOfNewlineFree(s[1..]);
      assert [s[0]] + s[1..] == s;
    }
  }

  lemma {:induction false} LinesOfPrefixed(a: string, rest: string)
    requires '\n' !in a
    ensures Lines(a + "\n" + rest) == [a] + Lines(rest)
  {
    if |a| == 0 {
      assert a + "\n" + rest == "\n" + rest;
      assert ("\n" + rest)[1..] == rest;
    } else {
      var s := a + "\n" + rest;
      assert s[1..] == a[1..] + "\n" + rest;
      assert '\n' !in a[1..] by {
        forall c | c in a[1..] ensures c != '\n' { assert c in a; }
      }
      LinesOfPrefixed(a[1..], rest);
      assert [a[0]] + a[1..] == a;
      assert Lines(s) == [[a[0]] + a[1..]] + Lines(rest);
    }
  }

  // ---------------------------------------------------------------------
  // Intelligence lines
  // ---------------------------------------------------------------------

  /** `lines.filter(line => line.trim().length > 0)`. */
  function NonBlankLines(lines: seq<string>): (r: seq<string>)
    ensures |r| <= |lines|
    ensures forall j :: 0 <= j < |r| ==> NonBlank(r[j]) && r[j] in lines
    ensures forall line :: line in lines && NonBlank(line) ==> line in r
  {
    if |lines| == 0 then []
    else if NonBlank(lines[0]) then [lines[0]] + NonBlankLines(lines[1..])
    else NonBlankLines(lines[1..])
  }

  /** The filter drops every blank line and keeps every non-blank one as often
      as it occurs; with `NonBlankLinesInOrder` this fixes the result. */
  lemma {:induction false} NonBlankLinesCounts(lines: seq<string>)
    ensures forall x ::
      multiset(NonBlankLines(lines))[x] == if NonBlank(x) then multiset(lines)[x] else 0
  {
    if |lines| > 0 {
      NonBlankLinesCounts(lines[1..]);
      assert lines == [lines[0]] + lines[1..];
      assert multiset(lines) == multiset([lines[0]]) + multiset(lines[1..]);
      if NonBlank(lines[0]) {
        var r := NonBlankLines(lines);
        assert r == [lines[0]] + NonBlankLines(lines[1..]);
        assert multiset(r) == multiset([lines[0]]) + multiset(NonBlankLines(lines[1..]));
      }
    }
  }

  /** `xs` is `ys` with some elements dropped, the rest kept in order. */
  predicate IsSubsequence<T(==)>(xs: seq<T>, ys: seq<T>)
    decreases |ys|
  {
    if |xs| == 0 then true
    else if |ys| == 0 then false
    else if xs[0] == ys[0] then IsSubsequence(xs[1..], ys[1..])
    else IsSubsequence(xs, ys[1..])
  }

  lemma {:induction false} NonBlankLinesInOrder(lines: seq<string>)
    ensures IsSubsequence(NonBlankLines(lines), lines)
  {
    if |lines| > 0 {
      NonBlankLinesInOrder(lines[1..]);
      if NonBlank(lines[0]) {
        assert NonBlankLines(lines)[1..] == NonBlankLines(lines[1..]);
      }
    }
  }

  lemma {:induction false} SubsequencePrefix<T>(xs: seq<T>, ys: seq<T>, n: nat)
    requires IsSubsequence(xs, ys) && n <= |xs|
    ensures IsSubsequence(xs[..n], ys)
    decreases |ys|
  {
    if n > 0 && |ys| > 0 {
      if xs[0] == ys[0] {
        SubsequencePrefix(xs[1..], ys[1..], n - 1);
        assert xs[..n][1..] == xs[1..][..n - 1];
      } else {
        SubsequencePrefix(xs, ys[1..], n);
      }
    }
  }

  const MaxIntelLines: nat := 5

  /** The parsing in `generateHackerIntelligence`:
      `text.split('\n').filter(non-blank).slice(0, 5)`. */
  function ParseIntel(text: string): (r: seq<string>)
    ensures |r| <= MaxIntelLines
    ensures forall j :: 0 <= j < |r| ==> '\n' !in r[j] && NonBlank(r[j])
  {
    var kept := NonBlankLines(Lines(text));
    if |kept| <= MaxIntelLines then kept else kept[..MaxIntelLines]
  }

  /** The parsed lines are lines of the response, untrimmed, in their order. */
  lemma ParseIntelInOrder(text: string)
    ensures IsSubsequence(ParseIntel(text), Lines(text))
  {
    var kept := NonBlankLines(Lines(text));
    NonBlankLinesInOrder(Lines(text));
    if |kept| > MaxIntelLines {
      SubsequencePrefix(kept, Lines(text), MaxIntelLines);
    }
  }

  /** The parsed lines are the first five non-blank lines, or all of them when
      there are fewer. */
  lemma ParseIntelFirstFive(text: string)
    ensures ParseIntel(text) <= NonBlankLines(Lines(text))
    ensures |ParseIntel(text)| ==
      if |NonBlankLines(Lines(text))| < MaxIntelLines then |NonBlankLines(Lines(text))| else MaxIntelLines
  {
  }

  /** Fewer than five lines come back only when no non-blank line was dropped;
      otherwise exactly five do. */
  lemma ParseIntelComplete(text: string)
    ensures |ParseIntel(text)| < MaxIntelLines ==>
      forall line :: line in Lines(text) && NonBlank(line) ==> line in ParseIntel(text)
    ensures |ParseIntel(text)| < MaxIntelLines <==> |NonBlankLines(Lines(text))| < MaxIntelLines
  {
    var kept := NonBlankLines(Lines(text));
    if |kept| < MaxIntelLines {
      assert ParseIntel(text) == kept;
    } else {
      assert |ParseIntel(text)| == MaxIntelLines;
    }
  }

  /** Text made only of whitespace, the empty text included, parses to no lines. */
  lemma {:induction false} ParseIntelBlank(text: string)
    requires forall i :: 0 <= i < |text| ==> IsWhitespace(text[i])
    ensures ParseIntel(text) == []
  {
    var lines := Lines(text);
    forall line | line in lines ensures !NonBlank(line) {
      var j :| 0 <= j < |lines| && lines[j] == line;
      LinesChars(text, j);
      forall i | 0 <= i < |line| ensures IsWhitespace(line[i]) {
        assert line[i] in text;
      }
    }
    NoNonBlank(lines);
  }

  lemma {:induction false} LinesChars(s: string, j: nat)
    requires j < |Lines(s)|
    ensures forall c :: c in Lines(s)[j] ==> c in s
  {
    if |s| > 0 {
      var rest := Lines(s[1..]);
      if s[0] == '\n' {
        if j > 0 {
          LinesChars(s[1..], j - 1);
        }
      } else {
        LinesChars(s[1..], if j == 0 then 0 else j);
        if j > 0 {
          assert Lines(s)[j] == rest[j];
        }
      }
    }
  }

  lemma {:induction false} NoNonBlank(lines: seq<string>)
    requires forall line :: line in lines ==> !NonBlank(line)
    ensures NonBlankLines(lines) == []
  {
    if |lines| > 0 {
      assert lines[0] in lines;
      NoNonBlank(lines[1..]);
    }
  }

  /** The five canned lines returned when the call fails. */
  function FallbackIntel(name: string): (r: seq<string>)
    ensures |r| == MaxIntelLines
    ensures r[0] == "Breaching protocol for " + name + "..."
  {
    [ "Breaching protocol for " + name + "...",
      "Connection secured via proxy.",
      "Accessing core mainframe...",
      "Data extraction at 45%...",
      "Firewall bypassed successfully." ]
  }

  /** `generateHackerIntelligence(name)` once the call's outcome is known. */
  function GenerateIntel(name: string, response: Response): (r: seq<string>)
    ensures |r| <= MaxIntelLines
    ensures response.Failed? ==> r == FallbackIntel(name)
    ensures response.Answered? ==> r == ParseIntel(TextOrEmpty(response.text))
  {
    match response
    case Failed => FallbackIntel(name)
    case Answered(text) => ParseIntel(TextOrEmpty(text))
  }

  /** A missing or empty answer gives no lines at all: the fallback is only
      used when the call fails. */
  lemma EmptyAnswerGivesNoIntel(name: string, text: Option<string>)
    requires text == None || text == Some("")
    ensures GenerateIntel(name, Answered(text)) == []
  {
    assert TextOrEmpty(text) == "";
    assert Lines("") == [""];
    assert !NonBlank("");
    assert NonBlankLines([""]) == [];
  }

  // ---------------------------------------------------------------------
  // Manifesto
  // ---------------------------------------------------------------------

  /** Used when the call answers without text. */
  const EmptyAnswerManifesto: string := "المعرفة قوة. نحن لا ننسى. نحن لا نغفر."
  /** Used when the call fails. */
  const FailureManifesto: string := "المستقبل ينتمي لأولئك الذين يكسرون القواعد."

  /** `getManifesto(name)` once the call's outcome is known. */
  function GetManifesto(response: Response): (r: string)
    ensures |r| > 0
    ensures response.Failed? ==> r == FailureManifesto
    ensures response.Answered? ==>
      r == (if TextOrEmpty(response.text) == "" then EmptyAnswerManifesto else TextOrEmpty(response.text))
  {
    match response
    case Failed => FailureManifesto
    case Answered(text) =>
      var t := TextOrEmpty(text);
      if t == "" then EmptyAnswerManifesto else t
  }

  /** A non-empty answer is passed through unchanged, and only then. */
  lemma ManifestoPassesAnswer(text: string)
    ensures GetManifesto(Answered(Some(text))) == text <==> text != ""
  {
  }
}
