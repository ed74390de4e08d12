/**
 The two attribute searches of the feed reader, `re.search(r'src="(.*?)"', s)`
 and `re.search(r'title="(.*?)"', s)`: a literal prefix ending in a quote,
 a lazy group of any characters but a newline (Python's `.`), and a closing
 quote. `Search` is the leftmost match, as `re.search` finds it.
 */
module AttrSearch {
  import opened Wrappers

  const SrcPrefix: string := "src=\""
  const TitlePrefix: string := "title=\""

  /** A character that ends the lazy group: the closing quote, or a newline that `.` cannot consume. */
  predicate IsStop(c: char)
  {
    c == '"' || c == '\n'
  }

  /** The group value cannot contain a quote (the lazy group stops at the first one) or a newline. */
  predicate NoStop(v: string)
  {
    forall i :: 0 <= i < |v| ==> !IsStop(v[i])
  }

  /** The group of `(.*?)"` can match `v` when it starts at position `j` of `s`. */
  ghost predicate ValueAt(s: string, j: int, v: string)
  {
    && 0 <= j
    && j + |v| < |s|
    && s[j..j + |v|] == v
    && s[j + |v|] == '"'
    && NoStop(v)
  }

  /** The whole pattern `p(.*?)"` matches at position `i` of `s`, with group value `v`. */
  ghost predicate MatchesAt(s: string, p: string, i: int, v: string)
  {
    && 0 <= i
    && i + |p| <= |s|
    && s[i..i + |p|] == p
    && ValueAt(s, i + |p|, v)
  }

  /** Position of a match and the text captured by its group. */
  datatype Match = Match(start: nat, value: string)

  /** The first stop character at or after `k`, or `|s|` when there is none. */
  function FirstStop(s: string, k: nat): (n: nat)
    requires k <= |s|
    ensures k <= n <= |s|
    ensures n < |s| ==> IsStop(s[n])
    ensures forall m :: k <= m < n ==> !IsStop(s[m])
    decreases |s| - k
  {
    if k == |s| || IsStop(s[k]) then k else FirstStop(s, k + 1)
  }

  /** The group matches exactly the text up to the first stop, and only when that stop is a quote. */
  lemma ValueAtIff(s: string, j: nat, v: string)
    requires j <= |s|
    ensures ValueAt(s, j, v) <==>
              (var n := FirstStop(s, j); n < |s| && s[n] == '"' && v == s[j..n])
  {
    var n := FirstStop(s, j);
    if n < |s| && s[n] == '"' && v == s[j..n] {
      forall i | 0 <= i < |v|
        ensures !IsStop(v[i])
      {
        assert v[i] == s[j + i];
      }
    }
  }

  /** Two matches at the same position capture the same text. */
  lemma MatchUnique(s: string, p: string, i: nat, v: string, w: string)
    requires MatchesAt(s, p, i, v) && MatchesAt(s, p, i, w)
    ensures v == w
  {
    ValueAtIff(s, i + |p|, v);
    ValueAtIff(s, i + |p|, w);
  }

  /** The leftmost match starting at or after position `i`. */
  function SearchFrom(s: string, p: string, i: nat): (r: Option<Match>)
    requires i <= |s|
    ensures r.Some? ==> i <= r.value.start && MatchesAt(s, p, r.value.start, r.value.value)
    ensures r.Some? ==> forall k, v :: i <= k < r.value.start ==> !MatchesAt(s, p, k, v)
    ensures r.None? ==> forall k, v :: i <= k ==> !MatchesAt(s, p, k, v)
    decreases |s| - i
  {
    if i + |p| >= |s| then None
    else
      var n := FirstStop(s, i + |p|);
      if s[i..i + |p|] == p && n < |s| && s[n] == '"' then
        ValueAtIff(s, i + |p|, s[i + |p|..n]);
        Some(Match(i, s[i + |p|..n]))
      else
        var r := SearchFrom(s, p, i + 1);
        assert forall v :: !MatchesAt(s, p, i, v) by {
          forall v ensures !MatchesAt(s, p, i, v) {
            ValueAtIff(s, i + |p|, v);
          }
        }
        r
  }

  /** `re.search(p + '(.*?)"', s)`: the leftmost match in the whole string. */
  function Search(s: string, p: string): (r: Option<Match>)
    ensures r.Some? ==> MatchesAt(s, p, r.value.start, r.value.value)
    ensures r.Some? ==> forall k, v :: 0 <= k < r.value.start ==> !MatchesAt(s, p, k, v)
    ensures r.None? <==> forall k, v :: !MatchesAt(s, p, k, v)
  {
    SearchFrom(s, p, 0)
  }

  /** `re.search(...).group(1)`, with `None` where Python's `.group` would raise. */
  function Extract(s: string, p: string): (r: Option<string>)
    ensures r.Some? ==> NoStop(r.value) && exists k :: MatchesAt(s, p, k, r.value)
    ensures r.None? <==> forall k, v :: !MatchesAt(s, p, k, v)
  {
    match Search(s, p)
    case None => None
    case Some(m) => Some(m.value)
  }

  /**
   Round trip: a summary that starts with the attribute prefix, a value free of
   quotes and newlines and a closing quote yields exactly that value, whatever follows.
   */
  lemma ExtractAfterPrefix(p: string, v: string, rest: string)
    requires NoStop(v)
    ensures Extract(p + v + "\"" + rest, p) == Some(v)
  {
    var s := p + v + "\"" + rest;
    assert s[0..|p|] == p;
    assert s[|p|..|p| + |v|] == v;
    assert MatchesAt(s, p, 0, v);
    var m := Search(s, p).value;
    assert m.start == 0;
    MatchUnique(s, p, 0, m.value, v);
  }

  /** The leftmost match wins: a later occurrence of the attribute is never returned. */
  lemma ExtractIsLeftmost(s: string, p: string, k: nat, v: string)
    requires MatchesAt(s, p, k, v)
    requires forall k', w :: 0 <= k' < k ==> !MatchesAt(s, p, k', w)
    ensures Extract(s, p) == Some(v)
  {
    var m := Search(s, p).value;
    assert m.start == k;
    MatchUnique(s, p, k, m.value, v);
  }
}
