/** The two string operations the core relies on: JavaScript's
    `String.prototype.replace` with a string pattern (only the FIRST occurrence
    is replaced) and substring containment (Prisma's `contains` filter). */
module Text {
  import opened Base

  /** `p` occurs in `s` starting at index `i`. */
  predicate OccursAt(s: string, p: string, i: nat)
  {
    i + |p| <= |s| && s[i..i + |p|] == p
  }

  /** `s.indexOf(p, k)`: the first index at or after `k` where `p` occurs. */
  function IndexFrom(s: string, p: string, k: nat): (r: Option<nat>)
    ensures r.Some? ==> k <= r.value && OccursAt(s, p, r.value)
    ensures r.Some? ==> forall j: nat :: k <= j < r.value ==> !OccursAt(s, p, j)
    ensures r.None? ==> forall j: nat :: k <= j ==> !OccursAt(s, p, j)
    decreases |s| - k
  {
    if k + |p| > |s| then None
    else if s[k..k + |p|] == p then Some(k)
    else IndexFrom(s, p, k + 1)
  }

  function IndexOf(s: string, p: string): (r: Option<nat>)
  {
    IndexFrom(s, p, 0)
  }

  /** Substring containment. */
  function Contains(s: string, p: string): (r: bool)
    ensures r <==> exists i: nat :: OccursAt(s, p, i)
  {
    IndexOf(s, p).Some?
  }

  /** `s.replace(p, rep)` with a string pattern: the first occurrence of `p`
      is replaced by `rep`; without an occurrence `s` is returned unchanged.
      Putting `p` back where `rep` now stands gives `s` again. */
  function ReplaceFirst(s: string, p: string, rep: string): (r: string)
    ensures IndexOf(s, p).None? ==> r == s
    ensures IndexOf(s, p).Some? ==>
              var i := IndexOf(s, p).value;
              |r| == |s| - |p| + |rep| && r[..i] + p + r[i + |rep|..] == s
    ensures IndexOf(s, p).Some? ==>
              var i := IndexOf(s, p).value;
              r[i..i + |rep|] == rep
  {
    match IndexOf(s, p)
    case None => s
    case Some(i) =>
      var r := s[..i] + rep + s[i + |p|..];
      assert r[..i] == s[..i] && r[i..i + |rep|] == rep && r[i + |rep|..] == s[i + |p|..];
      assert s == s[..i] + s[i..i + |p|] + s[i + |p|..];
      r
  }

  const BEARER: string := "Bearer "

  /** The token handed to the verifier: the authorization header with its
      first "Bearer " removed, wherever it stands; a header without the marker
      is passed on as it is. */
  function StripBearer(header: string): (token: string)
    ensures !Contains(header, BEARER) ==> token == header
    ensures Contains(header, BEARER) ==> |token| == |header| - |BEARER|
  {
    ReplaceFirst(header, BEARER, "")
  }

  /** A well-formed header `Bearer <t>` yields exactly `<t>`, whatever `<t>` is,
      even when `<t>` itself contains "Bearer ". */
  lemma StripBearerOfHeader(t: string)
    ensures StripBearer(BEARER + t) == t
  {
    var h := BEARER + t;
    assert h[0..|BEARER|] == BEARER;
    assert OccursAt(h, BEARER, 0);
    assert IndexOf(h, BEARER) == Some(0);
    assert h[|BEARER|..] == t;
  }

  /** Only one occurrence goes: when "Bearer " occurs in the header the token is
      seven characters shorter, and a header that is not a prefixed token is
      rewritten where the marker first occurs, not at its start. */
  lemma StripBearerRemovesFirstOnly(h: string)
    requires Contains(h, BEARER)
    ensures |StripBearer(h)| == |h| - |BEARER|
    ensures var i := IndexOf(h, BEARER).value;
            StripBearer(h)[..i] == h[..i] && StripBearer(h)[i..] == h[i + |BEARER|..]
  {
    var i := IndexOf(h, BEARER).value;
    var r := StripBearer(h);
    assert r == h[..i] + "" + h[i + |BEARER|..];
  }
}
