/** Error classes: internal/model/error.go. */
module Errors {
  import opened Text

  datatype Sentinel =
    | NoMatchingRule | ImageTagNotAllowed | ImageTagDenied | IncompleteRule | ManifestNotFound | InvalidManifest
    | ImageNotManaged | NoDifference | DuplicatePullRequest | InvalidPullRequest | RetryableMark

  /** An error as errors.Is sees it: the sentinels anywhere in its tree of wrapped errors. */
  type Error = set<Sentinel>

  function Retryable(e: Error): Error { {RetryableMark} + e }

  predicate IsRetryable(e: Error) { RetryableMark in e }

  /** errors.Join: nothing for no errors, otherwise one error that wraps them all. */
  function JoinErrors(es: seq<Error>): Option<Error> {
    if es == [] then None else Some(Union(es))
  }

  function Union(es: seq<Error>): Error {
    if es == [] then {} else es[0] + Union(es[1..])
  }

  lemma {:induction false} InUnion(es: seq<Error>, s: Sentinel)
    ensures s in Union(es) <==> exists i :: 0 <= i < |es| && s in es[i]
  {
    if es != [] {
      InUnion(es[1..], s);
      if s in Union(es[1..]) {
        var i :| 0 <= i < |es[1..]| && s in es[1..][i];
        assert s in es[i + 1];
      }
      if i :| 0 <= i < |es| && s in es[i] {
        assert i > 0 ==> s in es[1..][i - 1];
      }
    }
  }

  /** However terminal and retryable failures are mixed, the joined error is to be
      retried exactly when one of them is. */
  lemma JoinIsRetryable(es: seq<Error>)
    ensures (JoinErrors(es).Some? && IsRetryable(JoinErrors(es).value)) <==>
              exists i :: 0 <= i < |es| && IsRetryable(es[i])
  {
    InUnion(es, RetryableMark);
  }
}
