/**
 The string helpers of the Pi scripts: stripping whitespace from a
 reference heredoc, cutting a digit string into fixed-width lines, and
 counting how many leading characters of a computed value agree with a
 reference value of Pi.
 */
module Text {
  import opened Exact

  /** The four characters the whitespace mapping lists. */
  predicate IsWhitespace(c: char) {
    c == '\n' || c == '\r' || c == '\t' || c == ' '
  }

  // ---------------------------------------------------------------------
  // remove_whitespaces / remove_ws
  // ---------------------------------------------------------------------

  /** `s.replace(k, "")` for a one-character `k`: every occurrence of `k`
      is dropped and everything else is kept in order. */
  function Delete(s: string, k: char): (r: string)
    ensures |r| <= |s|
    ensures k !in r
  {
    if s == [] then [] else (if s[0] == k then [] else [s[0]]) + Delete(s[1..], k)
  }

  /** The four `replace` calls of the mapping loop, in the order listed. */
  function RemoveWhitespaces(s: string): string {
    Delete(Delete(Delete(Delete(s, '\n'), '\r'), '\t'), ' ')
  }

  /** Reference definition: the subsequence of the non-whitespace characters. */
  function Keep(s: string): (r: string)
    ensures |r| <= |s|
  {
    if s == [] then [] else (if IsWhitespace(s[0]) then [] else [s[0]]) + Keep(s[1..])
  }

  /** The filter drops every whitespace character and keeps the count of
      every other character. */
  lemma {:induction false} KeepSpec(s: string)
    ensures forall i :: 0 <= i < |Keep(s)| ==> !IsWhitespace(Keep(s)[i])
    ensures forall c :: !IsWhitespace(c) ==> multiset(Keep(s))[c] == multiset(s)[c]
  {
    if s != [] {
      assert s == [s[0]] + s[1..];
      KeepSpec(s[1..]);
    }
  }

  lemma {:induction false} DeleteAppend(x: string, y: string, k: char)
    ensures Delete(x + y, k) == Delete(x, k) + Delete(y, k)
  {
    if x == [] {
      assert x + y == y;
    } else {
      assert (x + y)[1..] == x[1..] + y;
      DeleteAppend(x[1..], y, k);
    }
  }

  lemma {:induction false} KeepAppend(x: string, y: string)
    ensures Keep(x + y) == Keep(x) + Keep(y)
  {
    if x == [] {
      assert x + y == y;
    } else {
      var head := if IsWhitespace(x[0]) then [] else [x[0]];
      assert (x + y)[0] == x[0];
      assert (x + y)[1..] == x[1..] + y;
      assert Keep(x + y) == head + Keep(x[1..] + y);
      KeepAppend(x[1..], y);
      assert Keep(x) == head + Keep(x[1..]);
    }
  }

  /** The four successive deletions are exactly the non-whitespace filter. */
  lemma {:induction false} RemoveWhitespacesIsKeep(s: string)
    ensures RemoveWhitespaces(s) == Keep(s)
  {
    if s != [] {
      var c, t := s[0], s[1..];
      assert s == [c] + t;
      DeleteAppend([c], t, '\n');
      var s1 := Delete([c], '\n');
      DeleteAppend(s1, Delete(t, '\n'), '\r');
      var s2 := Delete(s1, '\r');
      DeleteAppend(s2, Delete(Delete(t, '\n'), '\r'), '\t');
      var s3 := Delete(s2, '\t');
      DeleteAppend(s3, Delete(Delete(Delete(t, '\n'), '\r'), '\t'), ' ');
      assert [c][1..] == [];
      RemoveWhitespacesIsKeep(t);
    }
  }

  /** Stripping removes the four whitespace characters, keeps every other
      character in order, and never lengthens the string. */
  lemma RemoveWhitespacesSpec(s: string)
    ensures RemoveWhitespaces(s) == Keep(s)
    ensures |RemoveWhitespaces(s)| <= |s|
    ensures forall i :: 0 <= i < |RemoveWhitespaces(s)| ==> !IsWhitespace(RemoveWhitespaces(s)[i])
    ensures forall c :: !IsWhitespace(c) ==> multiset(RemoveWhitespaces(s))[c] == multiset(s)[c]
  {
    RemoveWhitespacesIsKeep(s);
    KeepSpec(s);
  }

  lemma {:induction false} KeepWithoutWhitespace(s: string)
    requires forall i :: 0 <= i < |s| ==> !IsWhitespace(s[i])
    ensures Keep(s) == s
  {
    if s != [] {
      KeepWithoutWhitespace(s[1..]);
    }
  }

  /** A string without whitespace is left as it is; in particular stripping
      is idempotent. */
  lemma RemoveWhitespacesIdempotent(s: string)
    ensures RemoveWhitespaces(RemoveWhitespaces(s)) == RemoveWhitespaces(s)
  {
    RemoveWhitespacesIsKeep(s);
    RemoveWhitespacesIsKeep(Keep(s));
    KeepSpec(s);
    KeepWithoutWhitespace(Keep(s));
  }

  /** Concatenating two strings and stripping equals stripping each. */
  lemma RemoveWhitespacesAppend(x: string, y: string)
    ensures RemoveWhitespaces(x + y) == RemoveWhitespaces(x) + RemoveWhitespaces(y)
  {
    RemoveWhitespacesIsKeep(x + y);
    RemoveWhitespacesIsKeep(x);
    RemoveWhitespacesIsKeep(y);
    KeepAppend(x, y);
  }

  // ---------------------------------------------------------------------
  // chunk_string
  // ---------------------------------------------------------------------

  function Min(x: int, y: int): int {
    if x <= y then x else y
  }

  /** Chunk `k` is the slice `s[k*len : k*len + len]`, clipped at the end
      as Python slicing does. */
  function ChunkAt(s: string, len: nat, k: nat): string
    requires 0 < len && k * len <= |s|
  {
    s[k * len .. Min(k * len + len, |s|)]
  }

  /** The number of start offsets in `range(0, n, len)`. */
  function CeilDiv(n: nat, len: nat): nat
    requires 0 < len
  {
    (n + len - 1) / len
  }

  lemma CeilDivBounds(n: nat, len: nat)
    requires 0 < len
    ensures CeilDiv(n, len) * len >= n
    ensures CeilDiv(n, len) == 0 || (CeilDiv(n, len) - 1) * len < n
    ensures n == 0 <==> CeilDiv(n, len) == 0
  {
    var m := CeilDiv(n, len);
    var x := n + len - 1;
    assert x == m * len + x % len;
    assert m * len > x - len;
    if m > 0 {
      assert (m - 1) * len == m * len - len;
    }
  }

  lemma OffsetWithin(n: nat, len: nat, k: nat)
    requires 0 < len && k < CeilDiv(n, len)
    ensures k * len < n
  {
    CeilDivBounds(n, len);
    assert k <= CeilDiv(n, len) - 1;
    assert k * len <= (CeilDiv(n, len) - 1) * len;
  }

  /** The generator of `chunk_string` for a positive width, as a list. */
  function ChunkList(s: string, len: nat): (r: seq<string>)
    requires 0 < len
    ensures |r| == CeilDiv(|s|, len)
  {
    seq(CeilDiv(|s|, len), (k: int) requires 0 <= k < CeilDiv(|s|, len) =>
      OffsetWithin(|s|, len, k);
      ChunkAt(s, len, k))
  }

  /** `chunk_string(s, len)`: `range` refuses a zero step, and a negative
      step yields no offsets at all. */
  function ChunkString(s: string, len: int): (r: Result<seq<string>>)
    ensures r.Err? <==> len == 0
    ensures r.Err? ==> r.fault == ValueError
    ensures len < 0 ==> r == Ok([])
  {
    if len == 0 then Err(ValueError)
    else if len < 0 then Ok([])
    else Ok(ChunkList(s, len))
  }

  /** `"".join(...)`, folding from the left. */
  function Concat(xs: seq<string>): string {
    if xs == [] then [] else Concat(xs[..|xs| - 1]) + xs[|xs| - 1]
  }

  lemma {:induction false} ConcatPrefix(s: string, len: nat, m: nat)
    requires 0 < len && m <= CeilDiv(|s|, len)
    ensures Concat(ChunkList(s, len)[..m]) == s[..Min(m * len, |s|)]
  {
    var xs := ChunkList(s, len);
    if m == 0 {
      assert xs[..0] == [];
    } else {
      ChunkStep(s, len, m);
      ConcatSnoc(xs[..m - 1], xs[m - 1]);
      ConcatPrefix(s, len, m - 1);
    }
  }

  /** The first m chunks are the first m - 1 and the chunk at (m-1) len,
      which continues the prefix the first m - 1 cover. */
  lemma ChunkStep(s: string, len: nat, m: nat)
    requires 0 < len && 0 < m <= CeilDiv(|s|, len)
    ensures ChunkList(s, len)[..m] == ChunkList(s, len)[..m - 1] + [ChunkList(s, len)[m - 1]]
    ensures s[..Min((m - 1) * len, |s|)] + ChunkList(s, len)[m - 1] == s[..Min(m * len, |s|)]
  {
    var xs := ChunkList(s, len);
    var lo, hi := (m - 1) * len, Min(m * len, |s|);
    assert lo + len == m * len;
    OffsetWithin(|s|, len, m - 1);
    assert xs[..m] == xs[..m - 1] + [xs[m - 1]];
    assert xs[m - 1] == s[lo .. hi];
    assert s[..lo] + s[lo .. hi] == s[..hi];
  }

  /** Joining one more string appends it. */
  lemma ConcatSnoc(xs: seq<string>, x: string)
    ensures Concat(xs + [x]) == Concat(xs) + x
  {
    assert (xs + [x])[..|xs|] == xs;
  }

  /** Joining the chunks gives back the input. */
  lemma ChunksConcatenate(s: string, len: nat)
    requires 0 < len
    ensures Concat(ChunkList(s, len)) == s
  {
    var m := CeilDiv(|s|, len);
    CeilDivBounds(|s|, len);
    ConcatPrefix(s, len, m);
    assert ChunkList(s, len)[..m] == ChunkList(s, len);
    assert s[..|s|] == s;
  }

  /** Every chunk but the last is exactly `len` long, the last is 1..len
      long, there are ceil(|s|/len) chunks, and none for the empty string. */
  lemma ChunkSizes(s: string, len: nat)
    requires 0 < len
    ensures |ChunkList(s, len)| == CeilDiv(|s|, len)
    ensures |ChunkList(s, len)| * len >= |s| > (|ChunkList(s, len)| - 1) * len
            || (s == [] && ChunkList(s, len) == [])
    ensures forall k :: 0 <= k < |ChunkList(s, len)| - 1 ==> |ChunkList(s, len)[k]| == len
    ensures |ChunkList(s, len)| > 0 ==> 1 <= |ChunkList(s, len)[|ChunkList(s, len)| - 1]| <= len
  {
    var xs := ChunkList(s, len);
    var m := |xs|;
    CeilDivBounds(|s|, len);
    forall k | 0 <= k < m - 1
      ensures |xs[k]| == len
    {
      OffsetWithin(|s|, len, k + 1);
      assert (k + 1) * len == k * len + len;
    }
    if m > 0 {
      OffsetWithin(|s|, len, m - 1);
    }
  }

  // ---------------------------------------------------------------------
  // correct_digits
  // ---------------------------------------------------------------------

  /** The pair `(correct, idx - 2)` that `correct_digits` returns: the agreeing
      prefix, and the number of agreeing places after "3.". */
  datatype Digits = Digits(correct: string, places: int)

  /** Reference definition: the length of the longest common prefix. */
  function CommonPrefixLength(x: string, y: string): (n: nat)
    ensures n <= |x| && n <= |y|
    ensures x[..n] == y[..n]
    ensures n == |x| || n == |y| || x[n] != y[n]
  {
    if x == [] || y == [] || x[0] != y[0] then 0
    else
      var m := CommonPrefixLength(x[1..], y[1..]);
      assert x[..m + 1] == [x[0]] + x[1..][..m];
      assert y[..m + 1] == [y[0]] + y[1..][..m];
      m + 1
  }

  /** The longest common prefix, together with its length minus two. */
  function Agreement(x: string, y: string): Digits {
    var n := CommonPrefixLength(x, y);
    Digits(x[..n], n - 2)
  }

  /** The scan of `archimedes_netz_lto.py`: the loop runs over the reference,
      `j` is its position, `idx` indexes the computed value; an IndexError
      (the computed value is used up) is swallowed and the loop goes on
      without moving `idx`. */
  function ScanReference(chk: string, ref: string, j: nat, idx: nat, correct: string): (r: Digits)
    requires j <= |ref|
    decreases |ref| - j
  {
    if j == |ref| then Digits(correct, idx - 2)
    else if idx < |chk| then
      if ref[j] == chk[idx] then ScanReference(chk, ref, j + 1, idx + 1, correct + [ref[j]])
      else Digits(correct, idx - 2)
    else ScanReference(chk, ref, j + 1, idx, correct)
  }

  /** `correct_digits(chkpi, refpi)` of `archimedes_netz_lto.py`. */
  function CorrectDigitsSwallowing(chk: string, ref: string): Digits {
    ScanReference(chk, ref, 0, 0, [])
  }

  lemma {:induction false} ScanReferenceIsAgreement(chk: string, ref: string, j: nat)
    requires j <= |ref| && j <= |chk| && chk[..j] == ref[..j]
    ensures ScanReference(chk, ref, j, j, ref[..j]) == Agreement(chk, ref)
    decreases |ref| - j
  {
    var n := CommonPrefixLength(chk, ref);
    PrefixAgreementBound(chk, ref, j);
    if j == |ref| {
      assert n == j;
    } else if j < |chk| {
      if ref[j] == chk[j] {
        assert chk[..j + 1] == ref[..j + 1];
        assert ref[..j] + [ref[j]] == ref[..j + 1];
        ScanReferenceIsAgreement(chk, ref, j + 1);
      } else {
        assert n == j;
      }
    } else {
      assert j == |chk| == n;
      assert ref[..j] == chk;
      SwallowedTail(chk, ref, j + 1);
    }
  }

  /** Once the computed value is used up, the remaining reference characters
      change nothing. */
  lemma {:induction false} SwallowedTail(chk: string, ref: string, j: nat)
    requires j <= |ref|
    ensures ScanReference(chk, ref, j, |chk|, chk) == Digits(chk, |chk| - 2)
    decreases |ref| - j
  {
    if j < |ref| {
      SwallowedTail(chk, ref, j + 1);
    }
  }

  /** A common prefix of length j is at most the longest one. */
  lemma PrefixAgreementBound(x: string, y: string, j: nat)
    requires j <= |x| && j <= |y| && x[..j] == y[..j]
    ensures j <= CommonPrefixLength(x, y)
  {
    var n := CommonPrefixLength(x, y);
    if n < j {
      assert false;
    }
  }

  /** The swallowing variant returns the longest common prefix and its
      length minus two; when the computed value is a prefix of the reference
      the count stops at its length. */
  lemma CorrectDigitsSwallowingSpec(chk: string, ref: string)
    ensures CorrectDigitsSwallowing(chk, ref) == Agreement(chk, ref)
    ensures CorrectDigitsSwallowing(chk, ref).places == CommonPrefixLength(chk, ref) - 2
    ensures CorrectDigitsSwallowing(chk, ref).correct == ref[..CommonPrefixLength(chk, ref)]
  {
    assert ref[..0] == [];
    ScanReferenceIsAgreement(chk, ref, 0);
  }

  /** Why a scan over the computed value stopped. */
  datatype Stop = Exhausted | Mismatch | IndexError

  /** The scan of the two `*_archimedes_original.py` scripts: the loop runs
      over the computed value (its position always equals `idx`, since every
      pass that does not break increments both) and indexes the reference; a
      reference that is used up raises IndexError, which ends the scan. */
  function ScanComputed(chk: string, ref: string, idx: nat, correct: string): (r: (Digits, Stop))
    requires idx <= |chk|
    decreases |chk| - idx
  {
    if idx == |chk| then (Digits(correct, idx - 2), Exhausted)
    else if |ref| <= idx then (Digits(correct, idx - 2), IndexError)
    else if chk[idx] == ref[idx] then ScanComputed(chk, ref, idx + 1, correct + [chk[idx]])
    else (Digits(correct, idx - 2), Mismatch)
  }

  lemma {:induction false} ScanComputedIsAgreement(chk: string, ref: string, j: nat)
    requires j <= |ref| && j <= |chk| && chk[..j] == ref[..j]
    ensures ScanComputed(chk, ref, j, chk[..j]).0 == Agreement(chk, ref)
    ensures ScanComputed(chk, ref, j, chk[..j]).1 == IndexError <==>
            CommonPrefixLength(chk, ref) == |ref| < |chk|
    decreases |chk| - j
  {
    PrefixAgreementBound(chk, ref, j);
    if j < |chk| && j < |ref| && chk[j] == ref[j] {
      assert chk[..j + 1] == ref[..j + 1];
      assert chk[..j] + [chk[j]] == chk[..j + 1];
      ScanComputedIsAgreement(chk, ref, j + 1);
    }
  }

  /** Pi to 100 places, the reference the scripts build from three parts. */
  const Pi100: string := "3." + "14159265358979323846264338327950288419716939937510"
                              + "58209749445923078164062862089986280348253421170679"

  /** The default reference is "3." followed by one hundred places. */
  lemma Pi100Shape()
    ensures |Pi100| == 102
    ensures Pi100[..2] == "3."
  {
  }

  /** `refpi=''` selects the built-in reference. */
  function Reference(refpi: string): (r: string)
    ensures refpi == [] ==> r == Pi100
    ensures refpi != [] ==> r == refpi
  {
    if refpi == [] then Pi100 else refpi
  }

  /** `correct_digits(chkpi, refpi='')` of the two `*_archimedes_original.py`
      scripts; the IndexError (or, in the bare-except version, any exception)
      is caught around the whole loop. */
  function CorrectDigitsCatching(chk: string, refpi: string): Digits {
    ScanComputed(chk, Reference(refpi), 0, []).0
  }

  /** The catching variant returns the longest common prefix with the
      (defaulted) reference and its length minus two. */
  lemma CorrectDigitsCatchingSpec(chk: string, refpi: string)
    ensures CorrectDigitsCatching(chk, refpi) == Agreement(chk, Reference(refpi))
    ensures refpi == [] ==> CorrectDigitsCatching(chk, refpi) == Agreement(chk, Pi100)
  {
    assert chk[..0] == [];
    ScanComputedIsAgreement(chk, Reference(refpi), 0);
  }

  /** The only exception the scan can raise is the IndexError of a used-up
      reference, and it is raised exactly when the whole reference agrees
      with a longer computed value. */
  lemma CatchingStopsOnlyOnExhaustedReference(chk: string, refpi: string)
    ensures ScanComputed(chk, Reference(refpi), 0, []).1 == IndexError <==>
            (|Reference(refpi)| < |chk| && chk[..|Reference(refpi)|] == Reference(refpi))
  {
    IndexErrorIffReferenceUsedUp(chk, Reference(refpi));
  }

  lemma IndexErrorIffReferenceUsedUp(chk: string, ref: string)
    ensures ScanComputed(chk, ref, 0, []).1 == IndexError <==> (|ref| < |chk| && chk[..|ref|] == ref)
  {
    assert chk[..0] == [];
    ScanComputedIsAgreement(chk, ref, 0);
    if |ref| < |chk| && chk[..|ref|] == ref {
      PrefixAgreementBound(chk, ref, |ref|);
      assert ref[..|ref|] == ref;
    }
  }

  /** `correct_digits(chkpi, refpi='')` of `archimedes_netz_dec.py`: a
      reference shorter than the computed value gives `(None, None)`, and
      otherwise the scan can never index past the reference. */
  function CorrectDigitsGuarded(chk: string, refpi: string): (r: Option<Digits>)
    ensures r.None? <==> |Reference(refpi)| < |chk|
    ensures r.Some? ==> r.value == Agreement(chk, Reference(refpi))
  {
    var ref := Reference(refpi);
    if |ref| < |chk| then None
    else
      assert chk[..0] == [];
      ScanComputedIsAgreement(chk, ref, 0);
      var (d, stop) := ScanComputed(chk, ref, 0, []);
      assert stop != IndexError;
      Some(d)
  }
}
