// What every bind flow exchanges with the server, and how it can end.

module Binding {
  import opened Bytes

  // The security layer a method was registered for.
  datatype Choice = Plain | SignOnly | SealOnly | SignSeal

  datatype Code = Success | InProgress | OtherCode(code: int)

  // A bindResponse; absent credentials read as the empty string.
  datatype Reply = Reply(code: Code, creds: bytes)

  // A BindOutcome, ok or not, or an exception out of the bind function.
  datatype Bind = Accepted | Refused | Failed

  // The i-th reply, counting from one, of a server that was asked `asked`.
  function ReplyTo<Q, R>(answer: seq<Q> -> R, asked: seq<Q>, i: nat): R
    requires 1 <= i <= |asked|
  {
    answer(asked[..i])
  }

  predicate InProgressUpTo<Q>(answer: seq<Q> -> Reply, asked: seq<Q>, n: nat)
    requires n <= |asked|
  {
    forall i :: 1 <= i <= n ==> ReplyTo(answer, asked, i).code == InProgress
  }
}
