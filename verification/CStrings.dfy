/** C strings: byte sequences that end at their first zero byte. */
module CStrings {

  /** What strlen and strcmp see. */
  function UpToZero(s: seq<bv8>): (r: seq<bv8>)
    ensures |r| <= |s| && r == s[..|r|] && 0 !in r
    ensures |r| < |s| ==> s[|r|] == 0
  {
    if s == [] || s[0] == 0 then [] else [s[0]] + UpToZero(s[1..])
  }

  /** strncpy of |s| bytes: from the first zero byte on, only zeros arrive. */
  function Copied(s: seq<bv8>): (r: seq<bv8>)
    ensures |r| == |s|
  {
    seq(|s|, i requires 0 <= i < |s| => if i < |UpToZero(s)| then s[i] else 0)
  }

  /** Zeros come last: nothing is lost by copying s as a string. */
  predicate ZerosLast(s: seq<bv8>) {
    forall i, j | 0 <= i < j < |s| && s[i] == 0 :: s[j] == 0
  }

  /** A byte loop copies like strncpy. */
  method CopyString(s: seq<bv8>, dst: array<bv8>)
    requires |s| <= dst.Length
    modifies dst
    ensures dst[..|s|] == Copied(s) && dst[|s|..] == old(dst[|s|..])
  {
    var i := 0;
    while i < |s| && s[i] != 0
      invariant i <= |s| && 0 !in s[..i]
      invariant dst[..i] == s[..i] && dst[|s|..] == old(dst[|s|..])
    {
      dst[i] := s[i];
      i := i + 1;
    }
    UpToZeroIs(s, i);
    forall k | i <= k < |s| { dst[k] := 0; }
  }

  lemma {:induction false} UpToZeroIs(s: seq<bv8>, n: nat)
    requires n <= |s| && 0 !in s[..n] && (n < |s| ==> s[n] == 0)
    ensures UpToZero(s) == s[..n]
  {
    if n > 0 {
      assert s[0] in s[..n];
      assert s[1..][..n - 1] == s[1..n] && forall b | b in s[1..n] :: b in s[..n];
      UpToZeroIs(s[1..], n - 1);
    }
  }

  lemma BeforeZero(s: seq<bv8>, i: nat)
    requires i < |s|
    ensures i < |UpToZero(s)| ==> s[i] != 0
  {
    if i < |UpToZero(s)| { assert UpToZero(s)[i] in UpToZero(s); }
  }

  /** Copying keeps the data exactly when no byte other than zero follows a zero byte. */
  lemma CopiedIff(s: seq<bv8>)
    ensures Copied(s) == s <==> ZerosLast(s)
  {
    var n := |UpToZero(s)|;
    if Copied(s) == s {
      forall i, j | 0 <= i < j < |s| && s[i] == 0 ensures s[j] == 0 {
        BeforeZero(s, i);
        assert Copied(s)[j] == 0;
      }
    }
    if ZerosLast(s) {
      forall i | 0 <= i < |s| ensures Copied(s)[i] == s[i] {
        if i > n { assert s[n] == 0; }
      }
    }
  }

  lemma CopiedPrefixZero(s: seq<bv8>)
    requires 0 !in s
    ensures UpToZero(s) == s && Copied(s) == s
  {
    UpToZeroIs(s, |s|);
    assert s[..|s|] == s;
  }
}
