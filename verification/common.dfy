/** Shared vocabulary: optional values, document identifiers and small facts
    about sequences that several parts of the model rely on. */
module Common {

  /** A value that may be missing: a JavaScript `null`/`undefined` field or a
      query that found no document. */
  datatype Option<+T> = None | Some(value: T)

  /** An HTTP reply: a success status with its JSON body, or an error status
      with the `message` field of the error body. */
  datatype Response<+T> = Success(status: nat, body: T) | Failure(status: nat, message: string)

  /** Document identifiers. MongoDB ObjectIds are compared through their string
      form, which is equality of the identifiers themselves. */
  type UserId = nat
  type SessionId = nat
  type RoutineId = nat

  /** Abstract point in time (what `Date.now()` returns). */
  type Stamp = int

  /** No element occurs twice. */
  predicate NoDuplicates<T(==)>(s: seq<T>) {
    forall i, j :: 0 <= i < j < |s| ==> s[i] != s[j]
  }

  /** A sequence without repetitions has as many elements as the set of
      its elements. */
  lemma {:induction false} DistinctCardinality<T>(s: seq<T>, elements: set<T>)
    requires NoDuplicates(s)
    requires forall x :: x in elements <==> x in s
    ensures |elements| == |s|
  {
    if |s| > 0 {
      var tail := s[1..];
      assert NoDuplicates(tail) by {
        forall i, j | 0 <= i < j < |tail| ensures tail[i] != tail[j] {
          assert tail[i] == s[i + 1] && tail[j] == s[j + 1];
        }
      }
      assert s[0] !in tail by {
        forall k | 0 <= k < |tail| ensures tail[k] != s[0] {
          assert tail[k] == s[k + 1];
        }
      }
      assert forall x :: x in s <==> x == s[0] || x in tail;
      DistinctCardinality(tail, elements - {s[0]});
    }
  }
}
