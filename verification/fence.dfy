/**
 Extraction of the JSON block from the model's reply:
 `re.search(r"^```json\n(.*?)\n```$", reply, re.DOTALL).group(1)`.
 Without MULTILINE, `^` matches only at the start of the reply and `$` only
 at its end or just before one final newline; with DOTALL the lazy group
 may span lines. Both ends are anchored, so the search is a prefix and
 suffix strip.
 */
module Fence {
  import opened Wrappers

  const Opening: string := "```json\n"
  const Closing: string := "\n```"

  /** `reply` is exactly one fence around `body`, optionally followed by one newline. */
  ghost predicate Wraps(reply: string, body: string)
  {
    reply == Opening + body + Closing || reply == Opening + body + Closing + "\n"
  }

  /** After the group ends at position `m`, the rest `\n```$` matches. */
  predicate TailAt(s: string, m: nat)
  {
    && m + |Closing| <= |s|
    && s[m..m + |Closing|] == Closing
    && (m + |Closing| == |s| || (m + |Closing| + 1 == |s| && s[|s| - 1] == '\n'))
  }

  /** The closing part can only sit at the very end, or one newline before it. */
  lemma TailOnlyAtEnd(s: string, m: nat)
    requires TailAt(s, m)
    ensures m == |s| - |Closing| || m == |s| - |Closing| - 1
  {
  }

  /** `reply` is `Opening + body + Closing + tail` with `tail` empty or one newline. */
  lemma WrapsIff(s: string, body: string)
    ensures Wraps(s, body) <==>
              |Opening| <= |s| && s[..|Opening|] == Opening &&
              |Opening| + |body| <= |s| && s[|Opening|..|Opening| + |body|] == body &&
              TailAt(s, |Opening| + |body|)
  {
    var m := |Opening| + |body|;
    if Wraps(s, body) {
      assert s[..|Opening|] == Opening;
      assert s[|Opening|..m] == body;
      assert s[m..m + |Closing|] == Closing;
    }
    if |Opening| <= |s| && s[..|Opening|] == Opening && m <= |s| && s[|Opening|..m] == body && TailAt(s, m) {
      assert s == s[..|Opening|] + s[|Opening|..m] + s[m..m + |Closing|] + s[m + |Closing|..];
      if m + |Closing| + 1 == |s| {
        assert s[m + |Closing|..] == "\n";
      } else {
        assert s[m + |Closing|..] == "";
      }
    }
  }

  /**
   The fenced body of a reply, or `None` where `re.search` returns `None`
   and `.group` raises. It succeeds exactly when the reply is one fence
   around some body, and then that body is the result.
   */
  function FencedBody(s: string): (r: Option<string>)
    ensures r.Some? ==> Wraps(s, r.value)
    ensures forall body :: Wraps(s, body) ==> r == Some(body)
  {
    var o := |Opening|;
    if o <= |s| && s[..o] == Opening && o + |Closing| <= |s| && TailAt(s, |s| - |Closing|) then
      WrapsIff(s, s[o..|s| - |Closing|]);
      NoOtherBody(s, s[o..|s| - |Closing|]);
      Some(s[o..|s| - |Closing|])
    else if o + |Closing| + 1 <= |s| && s[..o] == Opening && TailAt(s, |s| - |Closing| - 1) then
      WrapsIff(s, s[o..|s| - |Closing| - 1]);
      NoOtherBody(s, s[o..|s| - |Closing| - 1]);
      Some(s[o..|s| - |Closing| - 1])
    else
      assert forall body :: !Wraps(s, body) by {
        forall body ensures !Wraps(s, body) {
          WrapsIff(s, body);
          if Wraps(s, body) {
            TailOnlyAtEnd(s, |Opening| + |body|);
          }
        }
      }
      None
  }

  /** A reply is a fence around at most one body. */
  lemma NoOtherBody(s: string, body: string)
    requires Wraps(s, body)
    ensures forall other :: Wraps(s, other) ==> other == body
  {
    forall other | Wraps(s, other)
      ensures other == body
    {
      WrapsIff(s, body);
      WrapsIff(s, other);
      TailOnlyAtEnd(s, |Opening| + |body|);
      TailOnlyAtEnd(s, |Opening| + |other|);
    }
  }

  /** Round trip: wrapping a body in the fence and extracting gives the body back. */
  lemma FencedBodyOfWrapped(body: string)
    ensures FencedBody(Opening + body + Closing) == Some(body)
    ensures FencedBody(Opening + body + Closing + "\n") == Some(body)
  {
    assert Wraps(Opening + body + Closing, body);
    assert Wraps(Opening + body + Closing + "\n", body);
  }

  /**
   The regular-expression engine's own search: after the anchored opening,
   the lazy group tries every end position from the shortest up and stops
   at the first where `\n```$` matches. It agrees with the prefix and
   suffix strip.
   */
  method SearchFence(s: string) returns (r: Option<string>)
    ensures r == FencedBody(s)
  {
    var o := |Opening|;
    if |s| < o || s[..o] != Opening {
      assert forall body :: !Wraps(s, body) by {
        forall body ensures !Wraps(s, body) {
          WrapsIff(s, body);
        }
      }
      return None;
    }
    var m := o;
    while m + |Closing| <= |s|
      invariant o <= m <= |s|
      invariant forall k :: o <= k < m ==> !TailAt(s, k)
      decreases |s| - m
    {
      if TailAt(s, m) {
        WrapsIff(s, s[o..m]);
        return Some(s[o..m]);
      }
      m := m + 1;
    }
    assert forall body :: !Wraps(s, body) by {
      forall body ensures !Wraps(s, body) {
        WrapsIff(s, body);
      }
    }
    return None;
  }

  /**
   A reply holding two fenced blocks is still one match: the group runs from
   the first opening to the last closing and takes the fences in between
   with it, so only the JSON decoder can reject it.
   */
  lemma TwoBlocksReadAsOne(a: string, b: string)
    ensures FencedBody(Opening + a + Closing + "\n" + Opening + b + Closing)
            == Some(a + Closing + "\n" + Opening + b)
  {
    var body := a + Closing + "\n" + Opening + b;
    assert Opening + a + Closing + "\n" + Opening + b + Closing == Opening + body + Closing;
    FencedBodyOfWrapped(body);
  }
}
