/**
 * The token scanner: `stream_until_token` of the reader, as a pure split of
 * the remaining input at the earliest occurrence of a token.
 */
module Scanner {
  import opened Bytes
  import opened Errors

  /** What one scan produced: the bytes copied to the sink, whether the token
      was found, and the input left after the token. */
  datatype Scan = Scan(copied: seq<byte>, found: bool, rest: seq<byte>)

  /** The earliest index at or after `from` where `token` occurs in `s`. */
  function FindFrom(s: seq<byte>, token: seq<byte>, from: nat): (r: Option<nat>)
    requires from <= |s|
    decreases |s| - from
    ensures r.Some? ==> from <= r.value && OccursAt(s, token, r.value)
    ensures r.Some? ==> forall j: nat :: from <= j < r.value ==> !OccursAt(s, token, j)
    ensures r.None? ==> forall j: nat :: from <= j ==> !OccursAt(s, token, j)
  {
    if from + |token| > |s| then None
    else if s[from..from + |token|] == token then Some(from)
    else FindFrom(s, token, from + 1)
  }

  /**
   * Copies input into the sink until the token, consumes the token and stops.
   * When the input runs out first, everything was copied and nothing is left.
   */
  function StreamUntilToken(s: seq<byte>, token: seq<byte>): (r: Scan)
    requires |token| > 0
    ensures r.found ==> s == r.copied + token + r.rest
    ensures r.found ==> FirstOccurrence(s, token, |r.copied|)
    ensures !r.found ==> r.copied == s && r.rest == [] && Absent(s, token)
  {
    match FindFrom(s, token, 0)
    case Some(i) =>
      assert s == s[..i] + token + s[i + |token|..];
      Scan(s[..i], true, s[i + |token|..])
    case None => Scan(s, false, [])
  }

  /** The scan is determined by the first occurrence of the token: both directions. */
  lemma FoundIffFirstOccurrence(s: seq<byte>, token: seq<byte>, i: nat)
    requires |token| > 0
    ensures FirstOccurrence(s, token, i) <==>
            (i + |token| <= |s| && StreamUntilToken(s, token) == Scan(s[..i], true, s[i + |token|..]))
  {
    var r := StreamUntilToken(s, token);
    if FirstOccurrence(s, token, i) {
      assert OccursAt(s, token, i);
      var k := |r.copied|;
      assert FirstOccurrence(s, token, k);
      assert k == i;
    }
  }

  /** Every occurrence of a token in a prefix of `s` is an occurrence in `s`. */
  lemma OccursInPrefix(s: seq<byte>, p: seq<byte>, token: seq<byte>, j: nat)
    requires p <= s && OccursAt(p, token, j)
    ensures OccursAt(s, token, j)
  {
    assert s[j..j + |token|] == p[j..j + |token|];
  }

  /** A scan of a prefix `p` of `s` finds the token where the scan of `s` does
      when that occurrence lies wholly inside `p`. */
  lemma ScanOfPrefixFound(s: seq<byte>, p: seq<byte>, token: seq<byte>)
    requires |token| > 0 && p <= s
    requires StreamUntilToken(s, token).found
    requires |StreamUntilToken(s, token).copied| + |token| <= |p|
    ensures StreamUntilToken(p, token).found
    ensures StreamUntilToken(p, token).copied == StreamUntilToken(s, token).copied
    ensures StreamUntilToken(p, token).rest <= StreamUntilToken(s, token).rest
    ensures |StreamUntilToken(s, token).rest| - |StreamUntilToken(p, token).rest| == |s| - |p|
  {
    var rs := StreamUntilToken(s, token);
    var i := |rs.copied|;
    assert FirstOccurrence(s, token, i);
    assert OccursAt(p, token, i) by {
      assert p[i..i + |token|] == s[i..i + |token|];
    }
    forall j: nat | j < i ensures !OccursAt(p, token, j) {
      if OccursAt(p, token, j) {
        OccursInPrefix(s, p, token, j);
        assert false;
      }
    }
    assert FirstOccurrence(p, token, i);
    FoundIffFirstOccurrence(p, token, i);
    assert StreamUntilToken(p, token).copied == p[..i] == s[..i];
    assert StreamUntilToken(p, token).rest == p[i + |token|..];
  }

  /** A scan of a prefix `p` of `s` finds nothing when the scan of `s` finds no
      occurrence lying wholly inside `p`. */
  lemma ScanOfPrefixMissing(s: seq<byte>, p: seq<byte>, token: seq<byte>)
    requires |token| > 0 && p <= s
    requires !StreamUntilToken(s, token).found ||
             |StreamUntilToken(s, token).copied| + |token| > |p|
    ensures !StreamUntilToken(p, token).found
  {
    forall j: nat ensures !OccursAt(p, token, j) {
      if OccursAt(p, token, j) {
        OccursInPrefix(s, p, token, j);
        assert false;
      }
    }
  }

  /** The first occurrence of a token in `x`, when it lies inside `x`, is its first in `x + y`. */
  lemma FirstOccurrenceInPrefix(x: seq<byte>, y: seq<byte>, token: seq<byte>, i: nat)
    requires i + |token| <= |x|
    ensures FirstOccurrence(x, token, i) <==> FirstOccurrence(x + y, token, i)
  {
    assert (x + y)[i..i + |token|] == x[i..i + |token|];
    forall j: nat | j < i ensures OccursAt(x, token, j) <==> OccursAt(x + y, token, j) {
      assert (x + y)[j..j + |token|] == x[j..j + |token|];
    }
  }

  /** Scanning `x + token + y`, where the token first occurs right after `x`, copies `x` and leaves `y`. */
  lemma ScanSplits(x: seq<byte>, token: seq<byte>, y: seq<byte>)
    requires |token| > 0
    requires FirstOccurrence(x + token, token, |x|)
    ensures StreamUntilToken(x + token + y, token) == Scan(x, true, y)
  {
    var s := x + token + y;
    FirstOccurrenceInPrefix(x + token, y, token, |x|);
    FoundIffFirstOccurrence(s, token, |x|);
    assert s[..|x|] == x && s[|x| + |token|..] == y;
  }
}
