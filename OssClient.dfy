/**
 * The Aliyun OSS SDK client as the upload step uses it: `deleteObject`
 * and `putObject`. The SDK itself is not part of this model. Each request
 * may succeed or fail (the SDK throws); the client records every request
 * it is sent, with its outcome, in the order sent.
 */
module OssClient {

  datatype Request =
    | Delete(bucket: string, key: string)
    | Put(bucket: string, key: string, file: string)

  datatype Call = Call(request: Request, succeeded: bool)

  class Client {
    /** The requests sent so far, oldest first. */
    var calls: seq<Call>

    constructor ()
      ensures calls == []
    {
      calls := [];
    }

    /** `deleteObject(bucket, key)`; `ok` is false where the SDK throws. */
    method DeleteObject(bucket: string, key: string) returns (ok: bool)
      modifies this
      ensures calls == old(calls) + [Call(Delete(bucket, key), ok)]
    {
      ok := *;
      calls := calls + [Call(Delete(bucket, key), ok)];
    }

    /** `putObject(bucket, key, file)`; `ok` is false where the SDK throws. */
    method PutObject(bucket: string, key: string, file: string) returns (ok: bool)
      modifies this
      ensures calls == old(calls) + [Call(Put(bucket, key, file), ok)]
    {
      ok := *;
      calls := calls + [Call(Put(bucket, key, file), ok)];
    }
  }

  /** The number of put requests that succeeded. */
  function SuccessfulPuts(calls: seq<Call>): nat
  {
    if calls == [] then 0
    else SuccessfulPuts(calls[..|calls| - 1]) + (if calls[|calls| - 1].request.Put? && calls[|calls| - 1].succeeded then 1 else 0)
  }

  lemma {:induction false} SuccessfulPutsAppend(a: seq<Call>, b: seq<Call>)
    ensures SuccessfulPuts(a + b) == SuccessfulPuts(a) + SuccessfulPuts(b)
    decreases |b|
  {
    if b == [] {
      assert a + b == a;
    } else {
      assert (a + b)[..|a + b| - 1] == a + b[..|b| - 1];
      SuccessfulPutsAppend(a, b[..|b| - 1]);
    }
  }
}
