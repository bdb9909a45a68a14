/**
 * The payloads of `AppwriteDataManager`: a new request, and the partial
 * update sent for any document. Both spread the caller's object and then
 * force some fields; the store calls themselves are outside the model.
 */
module DataManager {
  import opened Documents

  /** The fields `createRequest` forces over the caller's object. */
  function RequestStamp(createdAt: int, updatedAt: int): Document {
    map["created_at" := Time(createdAt), "updated_at" := Time(updatedAt), "status" := Str("PENDING")]
  }

  /**
   * `{...requestData, created_at, updated_at, status: 'PENDING'}`.
   * `createdAt` and `updatedAt` are the two clock readings the source takes.
   */
  function CreateRequest(requestData: Document, createdAt: int, updatedAt: int): (d: Document)
    ensures d.Keys == requestData.Keys + {"created_at", "updated_at", "status"}
    ensures forall k ::
              k in requestData && k != "created_at" && k != "updated_at" && k != "status" ==> d[k] == requestData[k]
    ensures d["status"] == Str("PENDING")
    ensures d["created_at"] == Time(createdAt) && d["updated_at"] == Time(updatedAt)
  {
    Spread(requestData, RequestStamp(createdAt, updatedAt))
  }

  /** Whatever status and timestamps the caller supplies are discarded. */
  lemma CreateRequestIgnoresForcedFields(requestData: Document, createdAt: int, updatedAt: int)
    ensures CreateRequest(requestData, createdAt, updatedAt)
      == CreateRequest(requestData - {"created_at", "updated_at", "status"}, createdAt, updatedAt)
  {
  }

  /** Rebuilding a built request at later readings is the same as building it once at those readings. */
  lemma CreateRequestRestamp(requestData: Document, t1: int, t2: int, t3: int, t4: int)
    ensures CreateRequest(CreateRequest(requestData, t1, t2), t3, t4) == CreateRequest(requestData, t3, t4)
  {
  }

  /** `{...data, updated_at}`: the partial update sent by `updateDocument`, stamped with `now`. */
  function UpdatePayload(data: Document, now: int): (d: Document)
    ensures d.Keys == data.Keys + {"updated_at"}
    ensures forall k :: k in data && k != "updated_at" ==> d[k] == data[k]
    ensures d["updated_at"] == Time(now)
  {
    Spread(data, map["updated_at" := Time(now)])
  }

  /** Stamping twice keeps only the later stamp. */
  lemma UpdatePayloadRestamp(data: Document, t1: int, t2: int)
    ensures UpdatePayload(UpdatePayload(data, t1), t2) == UpdatePayload(data, t2)
  {
  }

  /** A payload without `updated_at` is sent with exactly one more field. */
  lemma UpdatePayloadAddsOneField(data: Document, now: int)
    requires "updated_at" !in data
    ensures |UpdatePayload(data, now)| == |data| + 1
  {
  }
}
