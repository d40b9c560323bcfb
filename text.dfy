/**
 The three JavaScript string built-ins the pills widget relies on:
 `String.prototype.trim`, `String.prototype.toLowerCase` (ASCII letters only)
 and `String.prototype.includes`.
 */
module Text {

  /** The code points `trim` removes: ECMAScript WhiteSpace (TAB, VT, FF, SP,
      NBSP, ZWNBSP and the Unicode category Zs) and LineTerminator (LF, CR,
      LS, PS). */
  predicate IsTrimmable(c: char) {
    c == '\t' || c == '\n' || c == '\U{B}' || c == '\U{C}' || c == '\r' ||
    c == ' ' || c == '\U{A0}' || c == '\U{1680}' ||
    ('\U{2000}' <= c <= '\U{200A}') ||
    c == '\U{2028}' || c == '\U{2029}' || c == '\U{202F}' || c == '\U{205F}' ||
    c == '\U{3000}' || c == '\U{FEFF}'
  }

  predicate AllTrimmable(s: string) {
    forall i :: 0 <= i < |s| ==> IsTrimmable(s[i])
  }

  /** `s` without its leading trimmable characters: a suffix of `s` that is
      empty or starts with a character `trim` keeps. */
  function TrimStart(s: string): (r: string)
    ensures |r| <= |s| && r == s[|s| - |r|..]
    ensures AllTrimmable(s[..|s| - |r|])
    ensures r == "" || !IsTrimmable(r[0])
  {
    if s != "" && IsTrimmable(s[0]) then TrimStart(s[1..]) else s
  }

  /** `s` without its trailing trimmable characters: a prefix of `s` that is
      empty or ends with a character `trim` keeps. */
  function TrimEnd(s: string): (r: string)
    ensures |r| <= |s| && r == s[..|r|]
    ensures AllTrimmable(s[|r|..])
    ensures r == "" || !IsTrimmable(r[|r| - 1])
  {
    if s != "" && IsTrimmable(s[|s| - 1]) then TrimEnd(s[..|s| - 1]) else s
  }

  /** `s.trim()`: empty exactly when `s` is all trimmable, and otherwise
      neither starting nor ending with a trimmable character. */
  function Trim(s: string): (r: string)
    ensures |r| <= |s|
    ensures r == "" <==> AllTrimmable(s)
    ensures r == "" || (!IsTrimmable(r[0]) && !IsTrimmable(r[|r| - 1]))
  {
    var t := TrimStart(s);
    var r := TrimEnd(t);
    assert r == "" ==> AllTrimmable(s) by {
      if r == "" {
        assert t == "";
        forall i | 0 <= i < |s| ensures IsTrimmable(s[i]) {
          assert s[i] == s[..|s| - |t|][i];
        }
      }
    }
    r
  }

  /** What `trim` keeps is one contiguous slice of `s`: a prefix of the suffix
      `TrimStart(s)`, with only trimmable characters dropped before and after
      it. */
  lemma {:induction false} TrimIsSlice(s: string)
    ensures var t := TrimStart(s);
            |t| <= |s| && t == s[|s| - |t|..] && AllTrimmable(s[..|s| - |t|]) &&
            |Trim(s)| <= |t| && Trim(s) == t[..|Trim(s)|] && AllTrimmable(t[|Trim(s)|..])
  {
    assert Trim(s) == TrimEnd(TrimStart(s));
  }

  /** Dropping a trimmable prefix that ends before a kept character is what
      `TrimStart` does. */
  lemma {:induction false} TrimStartAt(s: string, lo: nat)
    requires lo <= |s| && AllTrimmable(s[..lo]) && (lo < |s| ==> !IsTrimmable(s[lo]))
    ensures TrimStart(s) == s[lo..]
    decreases lo
  {
    if lo > 0 {
      assert s[0] == s[..lo][0];
      assert s[1..][..lo - 1] == s[..lo][1..];
      TrimStartAt(s[1..], lo - 1);
      assert s[1..][lo - 1..] == s[lo..];
    }
  }

  /** Dropping a trimmable suffix that starts after a kept character is what
      `TrimEnd` does. */
  lemma {:induction false} TrimEndAt(s: string, hi: nat)
    requires hi <= |s| && AllTrimmable(s[hi..]) && (hi > 0 ==> !IsTrimmable(s[hi - 1]))
    ensures TrimEnd(s) == s[..hi]
    decreases |s| - hi
  {
    if hi < |s| {
      assert s[|s| - 1] == s[hi..][|s| - 1 - hi];
      var u := s[..|s| - 1];
      assert forall i :: 0 <= i < |u| - hi ==> u[hi..][i] == s[hi..][i];
      TrimEndAt(u, hi);
      assert u[..hi] == s[..hi];
    }
  }

  /** `trim` is determined: any non-empty slice of `s` that starts and ends
      with kept characters and has only trimmable characters around it is
      `Trim(s)`. */
  lemma {:induction false} TrimUnique(s: string, lo: nat, hi: nat)
    requires lo < hi <= |s|
    requires AllTrimmable(s[..lo]) && AllTrimmable(s[hi..])
    requires !IsTrimmable(s[lo]) && !IsTrimmable(s[hi - 1])
    ensures Trim(s) == s[lo..hi]
  {
    var t := s[lo..];
    SliceOfSuffix(s, lo, hi);
    TrimEndAt(t, hi - lo);
    var r := TrimEnd(t);
    TrimStartAt(s, lo);
    assert Trim(s) == r;
  }

  /** How the slices of the suffix `s[lo..]` sit in `s`. */
  lemma SliceOfSuffix(s: string, lo: nat, hi: nat)
    requires lo < hi <= |s|
    ensures s[lo..][..hi - lo] == s[lo..hi] && s[lo..][hi - lo..] == s[hi..]
    ensures s[lo..][hi - lo - 1] == s[hi - 1]
  {
  }

  /** Trimming twice is trimming once. */
  lemma {:induction false} TrimIdempotent(s: string)
    ensures Trim(Trim(s)) == Trim(s)
  {
    var t := Trim(s);
    assert TrimStart(t) == t;
    assert TrimEnd(t) == t;
  }

  /** ASCII case folding of one character. */
  function LowerChar(c: char): (r: char)
    ensures !('A' <= r <= 'Z')
    ensures r == c || ('A' <= c <= 'Z' && r as int == c as int + 32)
  {
    if 'A' <= c <= 'Z' then (c as int + 32) as char else c
  }

  /** `s.toLowerCase()` restricted to ASCII letters: the same length, every
      character folded on its own, no upper-case ASCII letter left. */
  function ToLower(s: string): (r: string)
    ensures |r| == |s|
    ensures forall i :: 0 <= i < |s| ==> r[i] == LowerChar(s[i])
    ensures forall i :: 0 <= i < |r| ==> !('A' <= r[i] <= 'Z')
  {
    if s == "" then "" else [LowerChar(s[0])] + ToLower(s[1..])
  }

  /** Folding an already folded string changes nothing. */
  lemma {:induction false} ToLowerIdempotent(s: string)
    ensures ToLower(ToLower(s)) == ToLower(s)
  {
    var t := ToLower(s);
    assert forall i :: 0 <= i < |t| ==> LowerChar(t[i]) == t[i];
  }

  /** `sub` occurs in `s` starting at offset `k`. */
  predicate OccursAt(s: string, sub: string, k: nat) {
    k + |sub| <= |s| && s[k..k + |sub|] == sub
  }

  /** `s.includes(sub)`: `sub` occurs in `s` at some offset; the empty string
      is included in every string. */
  function Includes(s: string, sub: string): (r: bool)
    ensures r <==> exists k: nat :: OccursAt(s, sub, k)
    decreases |s|
  {
    if |sub| <= |s| && s[..|sub|] == sub then
      assert OccursAt(s, sub, 0);
      true
    else if |s| <= |sub| then
      false
    else
      var r := Includes(s[1..], sub);
      assert forall k: nat :: OccursAt(s[1..], sub, k) <==> OccursAt(s, sub, k + 1) by {
        forall k: nat ensures OccursAt(s[1..], sub, k) <==> OccursAt(s, sub, k + 1) {
          if k + |sub| <= |s| - 1 { assert s[1..][k..k + |sub|] == s[k + 1..k + 1 + |sub|]; }
        }
      }
      assert !OccursAt(s, sub, 0);
      assert (exists k: nat :: OccursAt(s, sub, k)) ==> exists k: nat :: OccursAt(s[1..], sub, k) by {
        if exists k: nat :: OccursAt(s, sub, k) {
          var k: nat :| OccursAt(s, sub, k);
          assert OccursAt(s[1..], sub, k - 1);
        }
      }
      r
  }

  /** Folding both sides keeps every occurrence, so a name that contains the
      query verbatim also contains it after folding. */
  lemma {:induction false} IncludesFolded(s: string, sub: string)
    ensures Includes(s, sub) ==> Includes(ToLower(s), ToLower(sub))
  {
    if Includes(s, sub) {
      var k: nat :| OccursAt(s, sub, k);
      OccursFolded(s, sub, k);
    }
  }

  /** An occurrence of `sub` in `s` is an occurrence of the folded `sub` in
      the folded `s`, at the same offset. */
  lemma OccursFolded(s: string, sub: string, k: nat)
    requires OccursAt(s, sub, k)
    ensures OccursAt(ToLower(s), ToLower(sub), k)
  {
    var n := |sub|;
    forall i | 0 <= i < n ensures ToLower(s)[k..k + n][i] == ToLower(sub)[i] {
      assert s[k + i] == s[k..k + n][i];
    }
  }

  /** The empty query is included in every name. */
  lemma IncludesEmpty()
    ensures forall s :: Includes(s, "")
  {
    forall s ensures Includes(s, "") { assert OccursAt(s, "", 0); }
  }
}
