/** Shared vocabulary of the two back-end routers: optional values, the
    error taxonomy the endpoints raise, and the offset/limit window that
    the paged queries apply. */
module Common {

  datatype Option<T> = None | Some(value: T)

  /** What an endpoint can fail with. NotFound and Forbidden are raised
      explicitly; the others are what the database rejects at commit. */
  datatype Error =
    | NotFound              // HTTPException 404
    | Forbidden             // HTTPException 403
    | DuplicateKey          // a unique constraint rejects the insert
    | ForeignKeyViolation   // a foreign key points at a missing row
    | MissingField          // a required key is absent from a JSON body
    | NegativeWindow        // the database rejects a negative OFFSET or LIMIT

  datatype Result<T> = Ok(value: T) | Err(error: Error)

  /** HTTP status the framework answers with for each error. */
  function HttpStatus(e: Error): (code: int)
    ensures e == NotFound <==> code == 404
    ensures e == Forbidden <==> code == 403
    ensures code in {403, 404, 500}
  {
    match e
    case NotFound => 404
    case Forbidden => 403
    case _ => 500
  }

  function Min(a: int, b: int): int
  {
    if a <= b then a else b
  }

  /** SQL `OFFSET skip LIMIT limit` on an already ordered row list. */
  function Page<T>(s: seq<T>, skip: nat, limit: nat): (r: seq<T>)
    ensures |r| == Min(limit, if skip <= |s| then |s| - skip else 0)
    ensures forall k :: 0 <= k < |r| ==> skip + k < |s| && r[k] == s[skip + k]
  {
    if skip >= |s| then []
    else if limit >= |s| - skip then s[skip..]
    else s[skip..skip + limit]
  }

  /** The rows in the opposite order (ORDER BY ... DESC over rows kept in
      insertion order). */
  function Reverse<T>(s: seq<T>): (r: seq<T>)
    ensures |r| == |s|
    ensures forall k :: 0 <= k < |s| ==> r[k] == s[|s| - 1 - k]
  {
    if s == [] then [] else Reverse(s[1..]) + [s[0]]
  }

  /** A window over the reversed rows: row k is the (skip + k)-th row
      counting back from the last. */
  lemma ReversedPage<T>(s: seq<T>, skip: nat, limit: nat)
    ensures |Page(Reverse(s), skip, limit)| == Min(limit, if skip <= |s| then |s| - skip else 0)
    ensures forall k :: 0 <= k < |Page(Reverse(s), skip, limit)| ==>
      skip + k < |s| && Page(Reverse(s), skip, limit)[k] == s[|s| - 1 - skip - k]
  {
  }

  /** The last `n` elements of `s`, or all of them when there are fewer
      (Python's `s[-n:]` for n > 0). */
  function LastN<T>(s: seq<T>, n: nat): (r: seq<T>)
    ensures |r| == Min(n, |s|)
    ensures forall k :: 0 <= k < |r| ==> r[k] == s[|s| - |r| + k]
  {
    if |s| <= n then s else s[|s| - n..]
  }

  /** A prefix one longer is the shorter prefix and the next element. */
  lemma PrefixSnoc<T>(s: seq<T>, i: nat)
    requires i < |s|
    ensures s[..i + 1] == s[..i] + [s[i]]
  {
    assert s[..i + 1][..i] == s[..i];
  }
}
