/**
 * The refresh-token list of an account: register and login push one token,
 * logout filters out every copy of the presented token, and refresh filters
 * out the presented token and pushes its replacement.
 */
module Sessions {
  import opened JsOps

  /** `tokens.filter((t) => t !== token)`. */
  function RemoveAll<T(==)>(tokens: seq<T>, token: T): (r: seq<T>)
    ensures token !in r
    ensures |r| == |tokens| - Count(tokens, token)
  {
    if tokens == [] then []
    else (if tokens[0] == token then [] else [tokens[0]]) + RemoveAll(tokens[1..], token)
  }

  /** The list after a successful refresh: the presented token filtered out, its replacement pushed. */
  function Rotate(tokens: seq<string>, presented: string, replacement: string): (r: seq<string>)
    ensures |r| == |tokens| - Count(tokens, presented) + 1
    ensures |r| > 0 && r[|r| - 1] == replacement
    ensures presented in r <==> presented == replacement
  {
    RemoveAll(tokens, presented) + [replacement]
  }

  /** Filtering keeps every other token with its multiplicity, and drops the presented one entirely. */
  lemma {:induction false} RemoveAllCounts(tokens: seq<string>, token: string, x: string)
    ensures Count(RemoveAll(tokens, token), x) == if x == token then 0 else Count(tokens, x)
  {
    if tokens != [] {
      RemoveAllCounts(tokens[1..], token, x);
      var head := if tokens[0] == token then [] else [tokens[0]];
      CountAppend(head, RemoveAll(tokens[1..], token), x);
    }
  }

  /** Filtering keeps the order of the tokens it keeps: it distributes over concatenation. */
  lemma {:induction false} RemoveAllAppend<T>(a: seq<T>, b: seq<T>, token: T)
    ensures RemoveAll(a + b, token) == RemoveAll(a, token) + RemoveAll(b, token)
  {
    if a == [] {
      assert a + b == b;
    } else {
      assert (a + b)[1..] == a[1..] + b;
      RemoveAllAppend(a[1..], b, token);
    }
  }

  /** Logging out twice with the same token is logging out once. */
  lemma RemoveAllIdempotent(tokens: seq<string>, token: string)
    ensures RemoveAll(RemoveAll(tokens, token), token) == RemoveAll(tokens, token)
  {
    RemoveAbsent(RemoveAll(tokens, token), token);
  }

  /** A list without the token is left as it is. */
  lemma {:induction false} RemoveAbsent(tokens: seq<string>, token: string)
    requires token !in tokens
    ensures RemoveAll(tokens, token) == tokens
  {
    if tokens != [] {
      assert token !in tokens[1..];
      RemoveAbsent(tokens[1..], token);
    }
  }

  /**
   * After a refresh the replacement is held exactly once more than before
   * the push, every other token keeps its multiplicity, and the presented
   * token is gone unless it is its own replacement.
   */
  lemma RotateCounts(tokens: seq<string>, presented: string, replacement: string, x: string)
    ensures Count(Rotate(tokens, presented, replacement), x)
         == (if x == presented then 0 else Count(tokens, x)) + (if x == replacement then 1 else 0)
    ensures |Rotate(tokens, presented, replacement)| == |tokens| - Count(tokens, presented) + 1
  {
    RemoveAllCounts(tokens, presented, x);
    CountAppend(RemoveAll(tokens, presented), [replacement], x);
    assert [replacement][1..] == [];
  }

  /** A refresh token cannot be replayed: once rotated, a different replacement leaves the old token out of the list. */
  lemma RotatedTokenRetired(tokens: seq<string>, presented: string, replacement: string)
    requires replacement != presented
    ensures presented !in Rotate(tokens, presented, replacement)
    ensures replacement in Rotate(tokens, presented, replacement)
  {
    assert Rotate(tokens, presented, replacement)[|RemoveAll(tokens, presented)|] == replacement;
  }
}
