/** Java's String.trim, which the legacy import uses to compare a text with
    the Base64 re-encoding of its decoded bytes. */
module Text {

  /** trim removes every leading and trailing character at or below U+0020. */
  predicate IsTrimmed(c: char) {
    c <= ' '
  }

  predicate AllTrimmed(s: string) {
    forall i :: 0 <= i < |s| ==> IsTrimmed(s[i])
  }

  /** Drops the leading run of trimmed characters. */
  function TrimStart(s: string): (r: string)
    ensures |r| <= |s| && r == s[|s| - |r|..]
    ensures AllTrimmed(s[..|s| - |r|])
    ensures |r| > 0 ==> !IsTrimmed(r[0])
  {
    if |s| > 0 && IsTrimmed(s[0]) then TrimStart(s[1..]) else s
  }

  /** Drops the trailing run of trimmed characters. */
  function TrimEnd(s: string): (r: string)
    ensures |r| <= |s| && r == s[..|r|]
    ensures AllTrimmed(s[|r|..])
    ensures |r| > 0 ==> !IsTrimmed(r[|r| - 1])
  {
    if |s| > 0 && IsTrimmed(s[|s| - 1]) then TrimEnd(s[..|s| - 1]) else s
  }

  /** String.trim: the longest infix that neither starts nor ends with a
      trimmed character, obtained by cutting only trimmed characters. */
  function Trim(s: string): (r: string)
    ensures |r| > 0 ==> !IsTrimmed(r[0]) && !IsTrimmed(r[|r| - 1])
    ensures |r| <= |s|
    ensures r == [] <==> AllTrimmed(s)
    ensures |s| - |TrimStart(s)| + |r| <= |s| && IsCut(s, |s| - |TrimStart(s)|, r)
  {
    var t := TrimStart(s);
    var r := TrimEnd(t);
    TrimCut(s, t, r);
    r
  }

  /** Cutting a trimmed run off the front of `s` and then off the back
      leaves an infix of `s`; it is empty only when all of `s` is trimmed. */
  lemma TrimCut(s: string, t: string, r: string)
    requires |t| <= |s| && t == s[|s| - |t|..] && AllTrimmed(s[..|s| - |t|])
    requires |r| <= |t| && r == t[..|r|] && AllTrimmed(t[|r|..])
    requires |r| > 0 ==> !IsTrimmed(r[|r| - 1])
    ensures |s| - |t| + |r| <= |s| && IsCut(s, |s| - |t|, r)
    ensures r == [] <==> AllTrimmed(s)
  {
    var i := |s| - |t|;
    assert s[i..i + |r|] == r;
    assert s[i + |r|..] == t[|r|..];
    if r == [] {
      forall k | 0 <= k < |s|
        ensures IsTrimmed(s[k])
      {
        if k < i {
          assert s[k] == s[..i][k];
        } else {
          assert s[k] == t[|r|..][k - i];
        }
      }
    } else {
      assert s[i + |r| - 1] == r[|r| - 1];
    }
  }

  /** `r` is the infix of `s` at offset `i`, and only trimmed characters lie
      outside it. */
  predicate IsCut(s: string, i: nat, r: string)
    requires i + |r| <= |s|
  {
    && r == s[i..i + |r|]
    && AllTrimmed(s[..i])
    && AllTrimmed(s[i + |r|..])
  }

  /** Leading trimmed characters make no difference to TrimStart. */
  lemma {:induction false} TrimStartPadded(pad: string, s: string)
    requires AllTrimmed(pad)
    ensures TrimStart(pad + s) == TrimStart(s)
    decreases |pad|
  {
    if |pad| == 0 {
      assert pad + s == s;
    } else {
      assert (pad + s)[1..] == pad[1..] + s;
      assert AllTrimmed(pad[1..]);
      TrimStartPadded(pad[1..], s);
    }
  }

  /** Trailing trimmed characters make no difference to TrimEnd. */
  lemma {:induction false} TrimEndPadded(s: string, pad: string)
    requires AllTrimmed(pad)
    ensures TrimEnd(s + pad) == TrimEnd(s)
    decreases |pad|
  {
    if |pad| == 0 {
      assert s + pad == s;
    } else {
      var n := |pad| - 1;
      assert (s + pad)[..|s + pad| - 1] == s + pad[..n];
      assert AllTrimmed(pad[..n]);
      TrimEndPadded(s, pad[..n]);
    }
  }

  /** TrimStart of a concatenation: once the first part has a character that
      is kept, the second part is kept whole. */
  lemma {:induction false} TrimStartAppend(s: string, t: string)
    ensures TrimStart(s + t) == if |TrimStart(s)| == 0 then TrimStart(t) else TrimStart(s) + t
    decreases |s|
  {
    if |s| == 0 {
      assert s + t == t;
    } else if IsTrimmed(s[0]) {
      assert (s + t)[1..] == s[1..] + t;
      TrimStartAppend(s[1..], t);
    }
  }

  /** Whitespace around a text does not change its trimmed form. */
  lemma TrimPadded(lead: string, s: string, trail: string)
    requires AllTrimmed(lead) && AllTrimmed(trail)
    ensures Trim(lead + s + trail) == Trim(s)
  {
    assert lead + s + trail == lead + (s + trail);
    TrimStartPadded(lead, s + trail);
    TrimStartAppend(s, trail);
    if |TrimStart(s)| == 0 {
      assert TrimStart(trail) == [] by {
        assert trail == [] + trail;
        TrimStartPadded(trail, []);
      }
    } else {
      TrimEndPadded(TrimStart(s), trail);
    }
  }

  /** Trimming twice trims nothing more. */
  lemma TrimIdempotent(s: string)
    ensures Trim(Trim(s)) == Trim(s)
  {
  }
}
