/** The Python exceptions that the matching core can raise, and the
    Result and Option wrappers that stand for them in the model. */
module Errors {

  /** An exception that aborts the current Python call. */
  datatype Error =
    | KeyError(key: string)       // a dict lookup of a missing key
    | IndexError(index: int)      // a list subscript out of range
    | ValueError(text: string)    // float() of a text that is not a number

  datatype Result<T> = Ok(value: T) | Err(error: Error)

  datatype Option<T> = None | Some(value: T)

  /** Python's `xs[i]`: a negative index counts from the end, anything
      outside -len(xs) .. len(xs)-1 raises IndexError. */
  function At<T>(xs: seq<T>, i: int): (r: Result<T>)
    ensures r.Ok? <==> -|xs| <= i < |xs|
    ensures r.Err? ==> r.error == IndexError(i)
    ensures 0 <= i < |xs| ==> r == Ok(xs[i])
    ensures -|xs| <= i < 0 ==> r == Ok(xs[|xs| + i])
  {
    if 0 <= i < |xs| then Ok(xs[i])
    else if -|xs| <= i < 0 then Ok(xs[|xs| + i])
    else Err(IndexError(i))
  }

  /** Python's slice `xs[lo:hi]` for non-negative bounds, which never fails:
      bounds past the end are clipped to the length. */
  function Slice<T>(xs: seq<T>, lo: nat, hi: nat): (r: seq<T>)
    ensures |r| == if hi <= lo || |xs| <= lo then 0 else (if hi <= |xs| then hi else |xs|) - lo
    ensures forall k :: 0 <= k < |r| ==> r[k] == xs[lo + k]
  {
    var a := if lo <= |xs| then lo else |xs|;
    var b := if hi <= |xs| then hi else |xs|;
    if a <= b then xs[a..b] else []
  }
}
