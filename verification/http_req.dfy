/** Package `http`: the retry loops of `Req.GetRetry` and `Req.PostRetry`.

    The server is the parameter `replies`: `replies(i)` is what the `i`-th request (counting
    from 0) ends with, a transport error or a response with a status code. */
module HttpReq {
  import opened Wrappers
  import opened Downloads

  /** The error a single request returns. */
  function ErrorOf(reply: Reply): Option<string>
  {
    if reply.Failed? then Some(reply.error) else None
  }

  predicate Succeeded(reply: Reply)
  {
    reply == Responded(200)
  }

  /** The shared loop: at most `tryCount` requests, stopping at the first one without error
      and with status 200; the error of the last request made is returned. */
  method Retry(tryCount: int, replies: nat -> Reply) returns (err: Option<string>, sent: nat)
    ensures tryCount <= 0 ==> sent == 0 && err == None
    ensures tryCount > 0 ==> 1 <= sent <= tryCount
    ensures forall i :: 0 <= i < sent - 1 ==> !Succeeded(replies(i))
    ensures sent > 0 ==> sent == tryCount || Succeeded(replies(sent - 1))
    ensures sent > 0 ==> err == ErrorOf(replies(sent - 1))
  {
    err := None;
    sent := 0;
    var i := 0;
    while i < tryCount
      invariant 0 <= i && (tryCount > 0 ==> i <= tryCount)
      invariant sent == i
      invariant forall j :: 0 <= j < i ==> !Succeeded(replies(j))
      invariant i > 0 ==> err == ErrorOf(replies(i - 1))
      invariant tryCount <= 0 ==> i == 0 && err == None
    {
      var reply := replies(i);
      err := ErrorOf(reply);
      sent := i + 1;
      if err == None && reply.status == 200 {
        return;
      }
      i := i + 1;
    }
  }

  /** `GetRetry`: the retry loop with GET requests. */
  method GetRetry(tryCount: int, replies: nat -> Reply) returns (err: Option<string>, sent: nat)
    ensures tryCount <= 0 ==> sent == 0 && err == None
    ensures tryCount > 0 ==> 1 <= sent <= tryCount
    ensures forall i :: 0 <= i < sent - 1 ==> !Succeeded(replies(i))
    ensures sent > 0 ==> sent == tryCount || Succeeded(replies(sent - 1))
    ensures sent > 0 ==> err == ErrorOf(replies(sent - 1))
  {
    err, sent := Retry(tryCount, replies);
  }

  /** `PostRetry`: the same loop with POST requests. */
  method PostRetry(tryCount: int, replies: nat -> Reply) returns (err: Option<string>, sent: nat)
    ensures tryCount <= 0 ==> sent == 0 && err == None
    ensures tryCount > 0 ==> 1 <= sent <= tryCount
    ensures forall i :: 0 <= i < sent - 1 ==> !Succeeded(replies(i))
    ensures sent > 0 ==> sent == tryCount || Succeeded(replies(sent - 1))
    ensures sent > 0 ==> err == ErrorOf(replies(sent - 1))
  {
    err, sent := Retry(tryCount, replies);
  }

  /** The returned error is nil although the last response was not a success: three 500s. */
  method NilErrorAfterFailures() returns (err: Option<string>, sent: nat)
    ensures err == None && sent == 3
  {
    err, sent := GetRetry(3, (i: nat) => Responded(500));
  }
}
