/** The difficulty test of the mining loop: a hash wins when three
    consecutive '0' characters occur among its first ten characters. */
module ProofOfWork {

  /** Only this many leading characters of the hash are examined. */
  const Window: nat := 10

  /** Three '0' characters start at index `i` of `w`. */
  predicate ZeroRunAt(w: string, i: int) {
    0 <= i && i + 3 <= |w| && w[i] == '0' && w[i + 1] == '0' && w[i + 2] == '0'
  }

  predicate HasZeroRun(w: string) {
    exists i :: 0 <= i < |w| && ZeroRunAt(w, i)
  }

  /** The part of the hash the test looks at. */
  function Examined(hash: string): (w: string)
    ensures |w| <= Window && |w| <= |hash| && w == hash[..|w|]
    ensures |hash| >= Window ==> |w| == Window
    ensures |hash| < Window ==> w == hash
  {
    if |hash| < Window then hash else hash[..Window]
  }

  /** The character loop of `Server::mine` from position `index`, with
      `count` zeros seen in a row just before it: a non-zero character
      resets the count, the third zero in a row succeeds, and the loop
      stops unsuccessfully at the end of the hash or at position ten. */
  function Scan(hash: string, index: nat, count: nat): bool
    requires index <= |hash|
    decreases |hash| - index
  {
    if index == |hash| || index == Window then false
    else if hash[index] != '0' then Scan(hash, index + 1, 0)
    else if count + 1 == 3 then true
    else Scan(hash, index + 1, count + 1)
  }

  /** The difficulty test applied to a freshly computed hash. */
  function MeetsTarget(hash: string): bool {
    Scan(hash, 0, 0)
  }

  /** A run inside a prefix is a run of the whole string that fits in the prefix. */
  lemma ZeroRunInPrefix(h: string, j: nat, i: int)
    requires j <= |h|
    ensures ZeroRunAt(h[..j], i) <==> i + 3 <= j && ZeroRunAt(h, i)
  {
  }

  /** The scan from `index` agrees with the run test on the examined window,
      provided `count` is exactly the number of zeros just before `index`
      and no run has been passed yet. */
  lemma {:induction false} ScanFinds(h: string, index: nat, count: nat)
    requires index <= |h| && index <= Window
    requires count < 3 && count <= index
    requires forall k :: index - count <= k < index ==> h[k] == '0'
    requires count < index ==> h[index - count - 1] != '0'
    requires !HasZeroRun(h[..index])
    ensures Scan(h, index, count) <==> HasZeroRun(Examined(h))
    decreases |h| - index
  {
    var w := Examined(h);
    if index == |h| || index == Window {
      assert w == h[..index];
    } else if h[index] != '0' {
      if HasZeroRun(h[..index + 1]) {
        var i :| 0 <= i < index + 1 && ZeroRunAt(h[..index + 1], i);
        ZeroRunInPrefix(h, index + 1, i);
        ZeroRunInPrefix(h, index, i);
        assert false;
      }
      ScanFinds(h, index + 1, 0);
    } else if count + 1 == 3 {
      ZeroRunInPrefix(h, |w|, index - 2);
      assert ZeroRunAt(w, index - 2);
    } else {
      if HasZeroRun(h[..index + 1]) {
        var i :| 0 <= i < index + 1 && ZeroRunAt(h[..index + 1], i);
        ZeroRunInPrefix(h, index + 1, i);
        ZeroRunInPrefix(h, index, i);
        assert false;
      }
      ScanFinds(h, index + 1, count + 1);
    }
  }

  /** The loop succeeds exactly when "000" occurs within the first ten
      characters of the hash. */
  lemma MeetsTargetIff(hash: string)
    ensures MeetsTarget(hash) <==> HasZeroRun(Examined(hash))
  {
    assert hash[..0] == "";
    ScanFinds(hash, 0, 0);
  }

  /** Characters from position ten on never affect the outcome. */
  lemma OnlyWindowMatters(h1: string, h2: string)
    requires Examined(h1) == Examined(h2)
    ensures MeetsTarget(h1) == MeetsTarget(h2)
  {
    MeetsTargetIff(h1);
    MeetsTargetIff(h2);
  }
}
