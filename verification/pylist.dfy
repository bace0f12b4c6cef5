/** Python's subscription `xs[k]` on a list of length `n`: a non-negative `k`
    counts from the front, a negative `k` counts from the end, and anything
    outside `-n <= k < n` raises `IndexError`. */
module PyList {
  import opened Wrappers

  /** The zero-based position that `xs[k]` reads, or `None` where Python raises `IndexError`. */
  function Index(n: nat, k: int): (r: Option<nat>)
    ensures r.Some? <==> -(n as int) <= k < n
    ensures r.Some? ==> r.value < n && (r.value - k) % n == 0
  {
    if 0 <= k < n then Some(k)
    else if -(n as int) <= k < 0 then Some(n + k)
    else None
  }

  /** Counting from the end names the same element as counting from the front:
      `xs[k - n]` and `xs[k]` agree for every valid non-negative `k`. */
  lemma NegativeMirrorsPositive(n: nat, k: int)
    requires 0 <= k < n
    ensures Index(n, k - n) == Index(n, k) == Some(k)
  {
  }

  /** Index 0 is valid exactly when the list is non-empty. */
  lemma ZeroValidIffNonEmpty(n: nat)
    ensures Index(n, 0).Some? <==> n > 0
    ensures n > 0 ==> Index(n, 0) == Some(0)
  {
  }
}
