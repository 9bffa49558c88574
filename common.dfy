/** Small helpers shared by the codecs and the error-handling model. */
module Common {
  import opened Wrappers

  /** An octet, as Rust's `u8`. */
  type Byte = b: int | 0 <= b < 256

  lemma AppendAssoc<T>(a: seq<T>, b: seq<T>, c: seq<T>)
    ensures (a + b) + c == a + (b + c)
  {
  }

  /** The concatenation of a list of text fragments, in order. */
  function Concat(parts: seq<string>): string {
    if parts == [] then [] else parts[0] + Concat(parts[1..])
  }

  lemma {:induction false} ConcatAppend(a: seq<string>, b: seq<string>)
    ensures Concat(a + b) == Concat(a) + Concat(b)
  {
    if a == [] {
      assert a + b == b;
    } else {
      assert (a + b)[1..] == a[1..] + b;
      ConcatAppend(a[1..], b);
    }
  }

  /**
   * The first index in [lo, hi) at which the oracle `p` answers true. It
   * models "the first call that fails" for a sequence of calls to an external
   * collaborator whose k-th answer is p(k).
   */
  function FirstWhere(p: nat -> bool, lo: nat, hi: nat): (r: Option<nat>)
    decreases hi - lo
    ensures r.Some? ==> lo <= r.value < hi && p(r.value)
    ensures r.Some? ==> forall k :: lo <= k < r.value ==> !p(k)
    ensures r.None? <==> forall k :: lo <= k < hi ==> !p(k)
  {
    if lo >= hi then None
    else if p(lo) then Some(lo)
    else FirstWhere(p, lo + 1, hi)
  }

  /** The first failing call is unique: any index that fails after only successes is it. */
  lemma FirstWhereIs(p: nat -> bool, lo: nat, hi: nat, j: nat)
    requires lo <= j < hi && p(j)
    requires forall k :: lo <= k < j ==> !p(k)
    ensures FirstWhere(p, lo, hi) == Some(j)
  {
  }
}
