/** The part of JavaScript's string semantics the editor relies on:
    `String.prototype.trim`. */
module JsString {

  /** The characters `trim` removes: ECMAScript's WhiteSpace (tab, vertical
      tab, form feed, space, no-break space, zero width no-break space and the
      Unicode "Zs" spaces) and LineTerminator (line feed, carriage return,
      line and paragraph separators). */
  predicate IsTrimmable(c: char)
  {
    || c == '\t' || c == '\n' || c == '\U{000B}' || c == '\U{000C}' || c == '\r'
    || c == ' ' || c == '\U{00A0}' || c == '\U{1680}'
    || ('\U{2000}' <= c <= '\U{200A}')
    || c == '\U{2028}' || c == '\U{2029}' || c == '\U{202F}' || c == '\U{205F}'
    || c == '\U{3000}' || c == '\U{FEFF}'
  }

  /** `s` without its leading trimmable characters. */
  function TrimStart(s: string): (r: string)
    ensures |r| <= |s| && r == s[|s| - |r|..]
    ensures forall k :: 0 <= k < |s| - |r| ==> IsTrimmable(s[k])
    ensures r == [] || !IsTrimmable(r[0])
  {
    if s != [] && IsTrimmable(s[0]) then TrimStart(s[1..]) else s
  }

  /** `s` without its trailing trimmable characters. */
  function TrimEnd(s: string): (r: string)
    ensures |r| <= |s| && r == s[..|r|]
    ensures forall k :: |r| <= k < |s| ==> IsTrimmable(s[k])
    ensures r == [] || !IsTrimmable(r[|r| - 1])
  {
    if s != [] && IsTrimmable(s[|s| - 1]) then TrimEnd(s[..|s| - 1]) else s
  }

  /** `r` is `s[i..i + |r|]` and everything of `s` around it is trimmable. */
  predicate CutsTo(s: string, r: string, i: nat)
  {
    && i + |r| <= |s| && r == s[i..i + |r|]
    && (forall k :: 0 <= k < i ==> IsTrimmable(s[k]))
    && (forall k :: i + |r| <= k < |s| ==> IsTrimmable(s[k]))
  }

  /** `s.trim()`: a middle part of `s` that neither starts nor ends with a
      trimmable character, and everything cut off on either side is
      trimmable. */
  function Trim(s: string): (r: string)
    ensures r == [] || (!IsTrimmable(r[0]) && !IsTrimmable(r[|r| - 1]))
    ensures exists i :: CutsTo(s, r, i)
  {
    var front := TrimStart(s);
    var r := TrimEnd(front);
    assert CutsTo(s, r, |s| - |front|);
    r
  }

  /** Once its first `i` characters are all trimmable and the next one is
      not, TrimStart removes exactly those `i`. */
  lemma {:induction false} TrimStartSkips(s: string, i: nat)
    requires i < |s| && !IsTrimmable(s[i])
    requires forall k :: 0 <= k < i ==> IsTrimmable(s[k])
    ensures TrimStart(s) == s[i..]
    decreases i
  {
    if i > 0 {
      TrimStartSkips(s[1..], i - 1);
      assert s[1..][i - 1..] == s[i..];
    }
  }

  /** Once everything from index `j` on is trimmable and the character before
      it is not, TrimEnd keeps exactly the first `j` characters. */
  lemma {:induction false} TrimEndSkips(s: string, j: nat)
    requires 0 < j <= |s| && !IsTrimmable(s[j - 1])
    requires forall k :: j <= k < |s| ==> IsTrimmable(s[k])
    ensures TrimEnd(s) == s[..j]
    decreases |s| - j
  {
    if j < |s| {
      var u := s[..|s| - 1];
      TrimEndSkips(u, j);
      assert u[..j] == s[..j];
    }
  }

  /** `trim` is determined by its characterisation: whatever non-empty middle
      part `x` of `s` neither starts nor ends with a trimmable character and
      has only trimmable characters around it is `s.trim()`. */
  lemma TrimOfCut(s: string, x: string, i: nat)
    requires CutsTo(s, x, i)
    requires x != [] && !IsTrimmable(x[0]) && !IsTrimmable(x[|x| - 1])
    ensures Trim(s) == x
  {
    assert s[i] == x[0];
    TrimStartSkips(s, i);
    var u := s[i..];
    assert u[|x| - 1] == x[|x| - 1];
    forall k | |x| <= k < |u|
      ensures IsTrimmable(u[k])
    {
      assert u[k] == s[i + k];
    }
    TrimEndSkips(u, |x|);
    assert u[..|x|] == x;
    assert Trim(s) == TrimEnd(u);
  }
}
