/**
 Operations on strings. A character is a code point; what Go does byte by byte agrees on the characters searched
 for.
 */
module Text {
  import opened StageTypes

  /** White space as strings.TrimSpace understands it. */
  predicate IsSpace(c: char) {
    || c in " \t\n\r"
    || c in ['\U{B}', '\U{C}', '\U{85}', '\U{A0}', '\U{1680}']
    || c in ['\U{2028}', '\U{2029}', '\U{202F}', '\U{205F}', '\U{3000}']
    || '\U{2000}' <= c <= '\U{200A}'
  }

  /** The code points with the Unicode property White_Space. */
  lemma SpacesExactly(c: char)
    ensures var n := c as int;
      IsSpace(c) <==>
        9 <= n <= 13 || 8192 <= n <= 8202 || n in {32, 133, 160, 5760, 8232, 8233, 8239, 8287, 12288}
  {
  }

  function TrimLeft(s: string): string {
    if s != [] && IsSpace(s[0]) then TrimLeft(s[1..]) else s
  }

  function TrimRight(s: string): string {
    if s != [] && IsSpace(s[|s| - 1]) then TrimRight(s[..|s| - 1]) else s
  }

  function TrimSpace(s: string): string {
    TrimRight(TrimLeft(s))
  }

  predicate AllSpace(s: string) {
    forall i | 0 <= i < |s| :: IsSpace(s[i])
  }

  /** `sub` occurs in `s` at `i`. */
  predicate At(s: string, i: nat, sub: string) {
    i + |sub| <= |s| && s[i..i + |sub|] == sub
  }

  /** The first occurrence at `from` or later. */
  function Index(s: string, sub: string, from: nat): (found: Option<nat>)
    ensures found.Some? ==> from <= found.value && At(s, found.value, sub)
    decreases |s| - from
  {
    if from + |sub| > |s| then None
    else if At(s, from, sub) then Some(from)
    else Index(s, sub, from + 1)
  }

  lemma {:induction false} IndexIsFirst(s: string, sub: string, from: nat)
    ensures match Index(s, sub, from)
      case Some(i) => forall j: nat | from <= j < i :: !At(s, j, sub)
      case None => forall j: nat | from <= j :: !At(s, j, sub)
    decreases |s| - from
  {
    if from + |sub| <= |s| && !At(s, from, sub) {
      IndexIsFirst(s, sub, from + 1);
    }
  }

  predicate Contains(s: string, sub: string) {
    exists i: nat | i <= |s| :: At(s, i, sub)
  }

  lemma IndexIs(s: string, sub: string, from: nat, i: nat)
    requires from <= i && At(s, i, sub) && forall j: nat | from <= j < i :: !At(s, j, sub)
    ensures Index(s, sub, from) == Some(i)
  {
    IndexIsFirst(s, sub, from);
  }

  lemma IndexNone(s: string, sub: string)
    ensures Index(s, sub, 0).None? <==> !Contains(s, sub)
  {
    IndexIsFirst(s, sub, 0);
    if Index(s, sub, 0).Some? {
      assert At(s, Index(s, sub, 0).value, sub);
    }
  }

  // ----- Trimming -----

  /** Trimming cuts the string to what lies between two stretches of white space. */
  lemma {:induction false} TrimLeftCuts(s: string) returns (i: nat)
    ensures i <= |s| && TrimLeft(s) == s[i..] && AllSpace(s[..i])
    ensures i < |s| ==> !IsSpace(s[i])
  {
    if s != [] && IsSpace(s[0]) {
      i := TrimLeftCuts(s[1..]);
      i := i + 1;
      assert s[1..][i - 1..] == s[i..];
      assert s[..i] == [s[0]] + s[1..][..i - 1];
    } else {
      i := 0;
    }
  }

  lemma {:induction false} TrimRightCuts(s: string) returns (i: nat)
    ensures i <= |s| && TrimRight(s) == s[..i] && AllSpace(s[i..])
    ensures i > 0 ==> !IsSpace(s[i - 1])
  {
    if s != [] && IsSpace(s[|s| - 1]) {
      var init := s[..|s| - 1];
      i := TrimRightCuts(init);
      assert init[..i] == s[..i];
      assert s[i..] == init[i..] + [s[|s| - 1]];
    } else {
      i := |s|;
      assert s[..i] == s;
    }
  }

  lemma TrimCuts(s: string) returns (i: nat, j: nat)
    ensures i <= j <= |s| && TrimSpace(s) == s[i..j] && AllSpace(s[..i]) && AllSpace(s[j..])
    ensures i < j ==> !IsSpace(s[i]) && !IsSpace(s[j - 1])
  {
    i := TrimLeftCuts(s);
    var k := TrimRightCuts(s[i..]);
    j := i + k;
    assert s[i..][..k] == s[i..j] && s[i..][k..] == s[j..];
  }

  /** Characters that are not white space survive. */
  lemma TrimKeeps(s: string, c: char)
    requires !IsSpace(c)
    ensures c in TrimSpace(s) <==> c in s
  {
    var i, j := TrimCuts(s);
    if c in s {
      var k :| 0 <= k < |s| && s[k] == c;
      assert i <= k < j by {
        assert forall m | 0 <= m < i :: s[..i][m] == s[m];
        assert forall m | j <= m < |s| :: s[j..][m - j] == s[m];
      }
      assert s[i..j][k - i] == c;
    }
  }

  /** Nothing to trim at either end. */
  predicate Trimmed(s: string) {
    s != [] ==> !IsSpace(s[0]) && !IsSpace(s[|s| - 1])
  }

  lemma TrimIdle(s: string)
    requires Trimmed(s)
    ensures TrimSpace(s) == s
  {
  }

  lemma TrimIsTrimmed(s: string)
    ensures Trimmed(TrimSpace(s)) && |TrimSpace(s)| <= |s|
  {
    var i, j := TrimCuts(s);
  }

  lemma {:induction false} TrimLeftSpace(pad: string, s: string)
    requires AllSpace(pad)
    ensures TrimLeft(pad + s) == TrimLeft(s)
  {
    if pad == [] {
      assert pad + s == s;
    } else {
      assert (pad + s)[1..] == pad[1..] + s;
      TrimLeftSpace(pad[1..], s);
    }
  }

  lemma {:induction false} TrimRightSpace(s: string, pad: string)
    requires AllSpace(pad)
    ensures TrimRight(s + pad) == TrimRight(s)
  {
    if pad == [] {
      assert s + pad == s;
    } else {
      assert (s + pad)[..|s + pad| - 1] == s + pad[..|pad| - 1];
      TrimRightSpace(s, pad[..|pad| - 1]);
    }
  }

  /** White space around a trimmed string is what trimming takes away. */
  lemma TrimPadded(left: string, s: string, right: string)
    requires AllSpace(left) && AllSpace(right) && Trimmed(s)
    ensures TrimSpace(left + s + right) == s
  {
    assert left + s + right == left + (s + right);
    TrimLeftSpace(left, s + right);
    if s == [] {
      TrimLeftSpace(right, []);
      assert right + [] == right == s + right;
    } else {
      TrimRightSpace(s, right);
    }
  }
}
