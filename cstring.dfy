/** C string helpers shared by the firmware model: `strlen`/NUL handling, `strstr`
    (case-sensitive substring search) and `strcasestr` (ASCII case-insensitive search). */
module CString {

  const NUL: char := 0 as char

  /** `s[i..]` starts with `pat`. */
  predicate MatchesAt(s: string, pat: string, i: nat)
  {
    i + |pat| <= |s| && s[i..i + |pat|] == pat
  }

  /** The position `strstr(s, pat)` points at, if any: the first match. */
  function FindFrom(s: string, pat: string, i: nat): (r: int)
    requires i <= |s|
    ensures r == -1 || (i <= r && MatchesAt(s, pat, r))
    ensures r != -1 ==> forall j :: i <= j < r ==> !MatchesAt(s, pat, j)
    ensures r == -1 ==> forall j :: i <= j <= |s| ==> !MatchesAt(s, pat, j)
    decreases |s| - i
  {
    if MatchesAt(s, pat, i) then i
    else if i == |s| then -1
    else FindFrom(s, pat, i + 1)
  }

  function Find(s: string, pat: string): (r: int)
    ensures r == -1 || (0 <= r && MatchesAt(s, pat, r))
    ensures r != -1 ==> forall j :: 0 <= j < r ==> !MatchesAt(s, pat, j)
    ensures r == -1 ==> forall j :: 0 <= j <= |s| ==> !MatchesAt(s, pat, j)
  {
    FindFrom(s, pat, 0)
  }

  /** `strstr(s, pat) != NULL`. */
  predicate Contains(s: string, pat: string)
  {
    Find(s, pat) != -1
  }

  lemma ContainsIff(s: string, pat: string)
    ensures Contains(s, pat) <==> exists j :: 0 <= j <= |s| && MatchesAt(s, pat, j)
  {
    if !Contains(s, pat) {
      assert forall j :: 0 <= j <= |s| ==> !MatchesAt(s, pat, j);
    }
  }

  /** `tolower` in the C locale. */
  function ToLower(c: char): (r: char)
    ensures 'A' <= c <= 'Z' ==> 'a' <= r <= 'z'
    ensures !('A' <= c <= 'Z') ==> r == c
  {
    if 'A' <= c <= 'Z' then (c as int + 32) as char else c
  }

  function Lower(s: string): (r: string)
    ensures |r| == |s|
    ensures forall i :: 0 <= i < |s| ==> r[i] == ToLower(s[i])
  {
    seq(|s|, i requires 0 <= i < |s| => ToLower(s[i]))
  }

  /** `strcasestr(s, pat) != NULL`: the search compares characters through `tolower`. */
  predicate ContainsIgnoreCase(s: string, pat: string)
  {
    Contains(Lower(s), Lower(pat))
  }

  /** `strcasestr` finds everything `strstr` finds once the pattern is lower-case. */
  lemma ContainsImpliesIgnoreCase(s: string, pat: string)
    requires Lower(pat) == pat
    requires Contains(s, pat)
    ensures ContainsIgnoreCase(s, pat)
  {
    var j := Find(s, pat);
    assert Lower(s)[j..j + |pat|] == Lower(s[j..j + |pat|]);
    assert MatchesAt(Lower(s), Lower(pat), j);
    ContainsIff(Lower(s), Lower(pat));
  }

  /** The characters of a NUL-terminated buffer up to its first NUL (what `strlen` counts). */
  function Str(buf: seq<char>): (r: string)
    ensures NUL !in r
    ensures r <= buf
    ensures |r| < |buf| ==> buf[|r|] == NUL
    ensures NUL !in buf ==> r == buf
  {
    if buf == [] || buf[0] == NUL then [] else [buf[0]] + Str(buf[1..])
  }

  /** A C string ends at its first NUL: what follows a NUL at `k` does not matter. */
  lemma {:induction false} StrCut(buf: seq<char>, k: nat)
    requires k < |buf| && buf[k] == NUL
    ensures Str(buf) == Str(buf[..k])
    decreases k
  {
    if k > 0 && buf[0] != NUL {
      assert buf[1..][k - 1] == buf[k];
      StrCut(buf[1..], k - 1);
      assert buf[..k][1..] == buf[1..][..k - 1];
    }
  }

  /** The index of the first occurrence of `c` in `s`, `|s|` when there is none. */
  function IndexOf(s: string, c: char): (r: nat)
    ensures r <= |s|
    ensures forall j :: 0 <= j < r ==> s[j] != c
    ensures r < |s| <==> c in s
    ensures r < |s| ==> s[r] == c
  {
    if s == [] then 0 else if s[0] == c then 0 else 1 + IndexOf(s[1..], c)
  }
}
