/**
 Python list subscription `xs[i]` on a list of length `n`, for an arbitrary
 (unbounded) integer `i`. Python accepts every `i` with `-n <= i < n`: a
 non-negative `i` is the position itself, a negative `i` counts from the end
 and addresses position `n + i`. Every other `i` raises `IndexError`, which
 this module represents as `None`.
 */
module PyList {

  datatype Option<+T> = None | Some(value: T)

  /** The position a Python subscript `i` addresses in a list of length `n`,
      or `None` where Python raises `IndexError`. */
  function Resolve(n: nat, i: int): (r: Option<nat>)
    ensures r.Some? <==> -(n as int) <= i < n
    ensures r.Some? ==> r.value < n && (r.value == i || r.value == n + i)
  {
    if 0 <= i < n then Some(i)
    else if -(n as int) <= i < 0 then Some(n + i)
    else None
  }

  /** `xs[i]` in Python: the addressed element, or `None` for `IndexError`. */
  function Get<T>(xs: seq<T>, i: int): (r: Option<T>)
    ensures r.Some? <==> -|xs| <= i < |xs|
    ensures 0 <= i < |xs| ==> r == Some(xs[i])
    ensures -|xs| <= i < 0 ==> r == Some(xs[|xs| + i])
    ensures r.Some? ==> r.value in xs
  {
    match Resolve(|xs|, i)
    case Some(k) => Some(xs[k])
    case None => None
  }

  /** Every position `k` of a list of length `n` is addressed by exactly two
      subscripts: `k` itself and the negative `k - n`. */
  lemma ExactlyTwoSubscripts(n: nat, i: int, k: nat)
    requires k < n
    ensures Resolve(n, i) == Some(k) <==> i == k || i == k - n
  {
  }
}
