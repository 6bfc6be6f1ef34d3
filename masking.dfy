/**
 * `hide_string_part`: the truncated preview under which the token and the
 * session marker are logged.
 */
module Masking {

  const Ellipsis: string := "..."

  /** Python's `s[:k]` for `k >= 0`: clamped to the length of `s`. */
  function PyHead(s: string, k: nat): (r: string)
    ensures |r| == if k <= |s| then k else |s|
    ensures r <= s
  {
    if k <= |s| then s[..k] else s
  }

  /** Python's `s[-k:]` for `k >= 1`: the last `k` characters, or all of `s`
      when it is shorter. */
  function PyTail(s: string, k: nat): (r: string)
    requires k >= 1
    ensures |r| == if k <= |s| then k else |s|
    ensures r == s[|s| - |r|..]
  {
    if k <= |s| then s[|s| - k..] else s
  }

  /** Strings shorter than 11 characters keep one character at each end,
      longer ones keep five. */
  function HideStringPart(s: string): (r: string)
    ensures s == [] ==> r == Ellipsis
    ensures 0 < |s| < 11 ==> r == [s[0]] + Ellipsis + [s[|s| - 1]]
    ensures |s| >= 11 ==> r == s[..5] + Ellipsis + s[|s| - 5..]
    ensures |r| == if s == [] then 3 else if |s| < 11 then 5 else 13
  {
    if |s| < 11 then PyHead(s, 1) + Ellipsis + PyTail(s, 1)
    else PyHead(s, 5) + Ellipsis + PyTail(s, 5)
  }

  /** How many characters the preview keeps at each end of `s`. */
  function KeptAtEachEnd(s: string): nat
  {
    if s == [] then 0 else if |s| < 11 then 1 else 5
  }

  /** One uniform reading of the preview: the first and the last `k`
      characters around `"..."`, with `k` at most five and, for an input of
      11 or more characters, at least one character hidden between them, so
      such a token is never logged in full. */
  lemma HideStringPartReveals(s: string)
    ensures var k := KeptAtEachEnd(s);
      && k <= |s| && k <= 5
      && HideStringPart(s) == s[..k] + Ellipsis + s[|s| - k..]
      && (|s| >= 11 ==> 2 * k < |s|)
  {
    if 0 < |s| < 11 {
      assert s[..1] == [s[0]] && s[|s| - 1..] == [s[|s| - 1]];
    }
  }

  /** Masking a preview again changes nothing, except for the empty string,
      whose preview `"..."` is itself masked to `"....."`. */
  lemma HideStringPartIdempotent(s: string)
    ensures s != [] ==> HideStringPart(HideStringPart(s)) == HideStringPart(s)
    ensures HideStringPart(HideStringPart([])) == "....."
  {
    var r := HideStringPart(s);
    if 0 < |s| < 11 {
      assert r[0] == s[0] && r[|r| - 1] == s[|s| - 1];
      assert [r[0]] + Ellipsis + [r[|r| - 1]] == r;
    } else if |s| >= 11 {
      assert r[..5] == s[..5];
      assert r[|r| - 5..] == s[|s| - 5..];
    }
  }
}
