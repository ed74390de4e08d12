/**
 The whitespace compression `generate_content_html` applies to the content
 template before handing it to Jinja:
 `"".join(template.splitlines()).replace("  ", " ")`.
 */
module Template {

  /**
   The line boundaries of Python's `str.splitlines`: line feed, carriage
   return, line tabulation, form feed, the three information separators,
   next line, line separator and paragraph separator. A carriage return
   followed by a line feed is one boundary.
   */
  predicate IsLineBreak(c: char)
  {
    || c == '\n' || c == '\r' || c == '\U{000B}' || c == '\U{000C}'
    || c == '\U{001C}' || c == '\U{001D}' || c == '\U{001E}'
    || c == '\U{0085}' || c == '\U{2028}' || c == '\U{2029}'
  }

  predicate NoLineBreak(s: string)
  {
    forall i :: 0 <= i < |s| ==> !IsLineBreak(s[i])
  }

  /** Position of the first line break at or after `k`, or `|s|`. */
  function LineEnd(s: string, k: nat): (n: nat)
    requires k <= |s|
    ensures k <= n <= |s|
    ensures n < |s| ==> IsLineBreak(s[n])
    ensures forall m :: k <= m < n ==> !IsLineBreak(s[m])
    decreases |s| - k
  {
    if k == |s| || IsLineBreak(s[k]) then k else LineEnd(s, k + 1)
  }

  /** Where the next line starts after a boundary at `n`: `\r\n` is consumed whole. */
  function NextLineStart(s: string, n: nat): (m: nat)
    requires n < |s| && IsLineBreak(s[n])
    ensures n < m <= |s|
  {
    if s[n] == '\r' && n + 1 < |s| && s[n + 1] == '\n' then n + 2 else n + 1
  }

  /**
   `str.splitlines()` without `keepends`: the lines, boundaries dropped; a
   final boundary does not start an empty last line.
   */
  function SplitLines(s: string): (lines: seq<string>)
    ensures forall i :: 0 <= i < |lines| ==> NoLineBreak(lines[i])
    decreases |s|
  {
    if |s| == 0 then []
    else
      var n := LineEnd(s, 0);
      if n == |s| then [s]
      else [s[..n]] + SplitLines(s[NextLineStart(s, n)..])
  }

  /** `"".join(lines)`. */
  function Join(lines: seq<string>): string
  {
    if |lines| == 0 then "" else lines[0] + Join(lines[1..])
  }

  /** The reference: the text with every line-break character deleted. */
  function RemoveLineBreaks(s: string): (r: string)
    ensures NoLineBreak(r)
    ensures |r| <= |s|
  {
    if |s| == 0 then ""
    else if IsLineBreak(s[0]) then RemoveLineBreaks(s[1..])
    else [s[0]] + RemoveLineBreaks(s[1..])
  }

  lemma {:induction false} RemoveLineBreaksAppend(a: string, b: string)
    ensures RemoveLineBreaks(a + b) == RemoveLineBreaks(a) + RemoveLineBreaks(b)
  {
    if |a| > 0 {
      assert (a + b)[1..] == a[1..] + b;
      RemoveLineBreaksAppend(a[1..], b);
    } else {
      assert a + b == b;
    }
  }

  lemma {:induction false} RemoveLineBreaksKeeps(s: string)
    requires NoLineBreak(s)
    ensures RemoveLineBreaks(s) == s
  {
    if |s| > 0 {
      RemoveLineBreaksKeeps(s[1..]);
    }
  }

  lemma {:induction false} RemoveLineBreaksDrops(s: string)
    requires forall i :: 0 <= i < |s| ==> IsLineBreak(s[i])
    ensures RemoveLineBreaks(s) == ""
  {
    if |s| > 0 {
      RemoveLineBreaksDrops(s[1..]);
    }
  }

  /** Deleting the breaks keeps a line, drops the boundary behind it and goes on with the rest. */
  lemma {:induction false} RemoveLineBreaksAtBoundary(line: string, breaks: string, rest: string)
    requires NoLineBreak(line)
    requires forall i :: 0 <= i < |breaks| ==> IsLineBreak(breaks[i])
    ensures RemoveLineBreaks(line + breaks + rest) == line + RemoveLineBreaks(rest)
  {
    RemoveLineBreaksAppend(line + breaks, rest);
    RemoveLineBreaksAppend(line, breaks);
    RemoveLineBreaksKeeps(line);
    RemoveLineBreaksDrops(breaks);
  }

  /**
   Joining the lines of `splitlines` with nothing between them is exactly
   deleting every line-break character: `\r\n` and the lone breaks alike.
   */
  lemma {:induction false} JoinSplitLines(s: string)
    ensures Join(SplitLines(s)) == RemoveLineBreaks(s)
    decreases |s|
  {
    if |s| > 0 {
      var n := LineEnd(s, 0);
      if n == |s| {
        RemoveLineBreaksKeeps(s);
        assert Join([s]) == s + Join([]);
      } else {
        var m := NextLineStart(s, n);
        var lines := SplitLines(s);
        assert lines == [s[..n]] + SplitLines(s[m..]);
        assert lines[1..] == SplitLines(s[m..]);
        JoinSplitLines(s[m..]);
        assert s == s[..n] + s[n..m] + s[m..];
        RemoveLineBreaksAtBoundary(s[..n], s[n..m], s[m..]);
      }
    }
  }

  /**
   `str.replace("  ", " ")`: one left-to-right scan; each pair of spaces
   found becomes one space and the scan resumes after the pair.
   */
  function ReplaceDoubleSpaces(s: string): (r: string)
    decreases |s|
  {
    if |s| >= 2 && s[0] == ' ' && s[1] == ' ' then " " + ReplaceDoubleSpaces(s[2..])
    else if |s| == 0 then ""
    else [s[0]] + ReplaceDoubleSpaces(s[1..])
  }

  /** `s` with its spaces taken out. */
  function NonSpaces(s: string): string
  {
    if |s| == 0 then "" else if s[0] == ' ' then NonSpaces(s[1..]) else [s[0]] + NonSpaces(s[1..])
  }

  /** A run of `n` spaces. */
  function Spaces(n: nat): (r: string)
    ensures |r| == n && forall i :: 0 <= i < n ==> r[i] == ' '
  {
    if n == 0 then "" else " " + Spaces(n - 1)
  }

  /**
   The replacement only ever removes spaces: every other character survives
   in order, the result is never longer and a character other than a space
   is never introduced.
   */
  lemma {:induction false} ReplaceRemovesOnlySpaces(s: string)
    ensures NonSpaces(ReplaceDoubleSpaces(s)) == NonSpaces(s)
    ensures |ReplaceDoubleSpaces(s)| <= |s|
    ensures forall i :: 0 <= i < |ReplaceDoubleSpaces(s)| ==> ReplaceDoubleSpaces(s)[i] in s
    decreases |s|
  {
    if |s| >= 2 && s[0] == ' ' && s[1] == ' ' {
      ReplaceRemovesOnlySpaces(s[2..]);
      var t := ReplaceDoubleSpaces(s[2..]);
      assert (" " + t)[1..] == t;
      assert s[1..][1..] == s[2..];
      forall i | 0 <= i < |" " + t| ensures (" " + t)[i] in s {
        if i > 0 { assert (" " + t)[i] == t[i - 1]; assert t[i - 1] in s[2..]; }
      }
    } else if |s| > 0 {
      ReplaceRemovesOnlySpaces(s[1..]);
      var t := ReplaceDoubleSpaces(s[1..]);
      assert ([s[0]] + t)[1..] == t;
      forall i | 0 <= i < |[s[0]] + t| ensures ([s[0]] + t)[i] in s {
        if i > 0 { assert ([s[0]] + t)[i] == t[i - 1]; assert t[i - 1] in s[1..]; }
      }
    }
  }

  /** A run of `n` spaces becomes a run of `n / 2` rounded up. */
  lemma {:induction false} ReplaceSpaceRun(n: nat)
    ensures ReplaceDoubleSpaces(Spaces(n)) == Spaces((n + 1) / 2)
    decreases n
  {
    if n >= 2 {
      var t := Spaces(n - 2);
      assert Spaces(n) == "  " + t;
      assert ("  " + t)[2..] == t;
      ReplaceSpaceRun(n - 2);
      assert Spaces((n + 1) / 2) == " " + Spaces((n - 1) / 2);
    } else if n == 1 {
      assert Spaces(1)[1..] == "";
    }
  }

  /**
   The compressed template: no line-break characters are left and the text
   never grows; apart from dropped breaks only spaces are removed.
   */
  function Compress(template: string): (r: string)
    ensures NoLineBreak(r)
    ensures |r| <= |template|
    ensures NonSpaces(r) == NonSpaces(RemoveLineBreaks(template))
    ensures r == ReplaceDoubleSpaces(RemoveLineBreaks(template))
  {
    var joined := Join(SplitLines(template));
    JoinSplitLines(template);
    ReplaceRemovesOnlySpaces(joined);
    var r := ReplaceDoubleSpaces(joined);
    assert forall i :: 0 <= i < |r| ==> r[i] in joined;
    r
  }

  /**
   A single pass: four spaces become two, not one, so compressing the
   result again changes it further.
   */
  lemma CompressNotIdempotent()
    ensures Compress("    ") == "  "
    ensures Compress(Compress("    ")) == " "
  {
    JoinSplitLines("    ");
    JoinSplitLines("  ");
    assert RemoveLineBreaks("    ") == Spaces(4) by {
      RemoveLineBreaksKeeps(Spaces(4));
    }
    assert RemoveLineBreaks("  ") == Spaces(2) by {
      RemoveLineBreaksKeeps(Spaces(2));
    }
    ReplaceSpaceRun(4);
    ReplaceSpaceRun(2);
  }
}
