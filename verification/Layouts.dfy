/**
 The record layouts of bucket-targets_gen.go, heal-commands_gen.go, info-commands_gen.go, metrics_gen.go
 and metrics_msgp.go.  A layout that is parameterised by another, such as a series by its element, takes
 any layout in its place.
 */
module Layouts {
  import opened MsgPack
  import opened Schema

  /** A key of ASCII characters. */
  function Key(s: string): (b: bytes)
    ensures |b| == |s| && forall i :: 0 <= i < |s| ==> b[i] == Ascii(s[i])
  {
    seq(|s|, i requires 0 <= i < |s| => Ascii(s[i]))
  }

  function Ascii(c: char): byte { if c as int < 0x80 then c as int else 0 }

  function F(name: string, typ: Type): Field { Field(Key(name), typ, false) }
  function O(name: string, typ: Type): Field { Field(Key(name), typ, true) }

  const INT := TInt(8)
  const UINT := TUint(8)

  // ----- bucket-targets_gen.go

  function Credentials(): Type {
    TRecord([
      O("accessKey", TStr), O("secretKey", TStr), O("sessionToken", TStr), O("expiration", TTime)])
  }

  function Latency(): Type { TRecord([F("Curr", INT), F("Avg", INT), F("Max", INT)]) }

  function BucketTarget(): Type {
    TRecord([
      F("sourcebucket", TStr), F("endpoint", TStr), F("credentials", TOpt(Credentials())), F("targetbucket", TStr),
      F("secure", TBool), O("path", TStr), O("api", TStr), O("arn", TStr), F("type", TStr), O("region", TStr),
      O("bandwidthlimit", INT), F("replicationSync", TBool), O("storageclass", TStr), O("healthCheckDuration", INT),
      F("disableProxy", TBool), O("resetBeforeDate", TTime), O("resetID", TStr), F("totalDowntime", INT),
      F("lastOnline", TTime), F("isOnline", TBool), F("latency", Latency()), O("deploymentID", TStr),
      F("edge", TBool), F("edgeSyncBeforeExpiry", TBool), F("offlineCount", INT), F("insecureTLS", TBool)])
  }

  function BucketTargets(): Type { TRecord([F("targets", TSlice(BucketTarget()))]) }

  // ----- info-commands_gen.go and heal-commands_gen.go

  function OfflineEvent(): Type {
    TRecord([
      F("from_time", TTime), F("to_time", TTime), F("reason", TInt(1)), F("decision", TInt(1))])
  }

  function OfflineInfo(): Type { TRecord([F("events", TSlice(OfflineEvent()))]) }

  function HealingDisk(): Type {
    TRecord([
      F("id", TStr), F("heal_id", TStr), F("pool_index", INT), F("set_index", INT), F("disk_index", INT),
      F("endpoint", TStr), F("path", TStr), F("started", TTime), F("last_update", TTime), F("retry_attempts", UINT),
      F("objects_total_count", UINT), F("objects_total_size", UINT), F("items_healed", UINT),
      F("items_failed", UINT), F("items_skipped", UINT), F("bytes_done", UINT), F("bytes_failed", UINT),
      F("bytes_skipped", UINT), F("current_bucket", TStr), F("current_object", TStr),
      F("queued_buckets", TSlice(TStr)), F("healed_buckets", TSlice(TStr)), F("finished", TBool),
      F("reason", TInt(1))])
  }

  function CacheStats(): Type {
    TRecord([
      F("n", INT), F("cap", INT), F("used", INT), F("hits", INT), F("misses", INT), F("delHits", INT),
      F("delMisses", INT), F("collisions", INT)])
  }

  function DiskStatus(): Type {
    TRecord([
      O("totalWaiting", TUint(4)), O("totalErrorsAvailability", UINT), O("totalErrorsTimeout", UINT)])
  }

  function Disk(): Type {
    TRecord([
      O("endpoint", TStr), O("rootDisk", TBool), O("path", TStr), O("healing", TBool), O("healing_queued", TBool),
      O("scanning", TBool), O("state", TStr), O("uuid", TStr), F("major", TUint(4)), F("minor", TUint(4)),
      O("model", TStr), O("totalspace", UINT), O("usedspace", UINT), O("availspace", UINT),
      O("readthroughput", TFloat), O("writethroughput", TFloat), O("readlatency", TFloat), O("writelatency", TFloat),
      O("utilization", TFloat), O("metrics", TOpt(DiskStatus())), O("heal_info", TOpt(HealingDisk())),
      O("offline_info", TOpt(OfflineInfo())), F("used_inodes", UINT), O("free_inodes", UINT), O("local", TBool),
      O("cacheStats", TOpt(CacheStats())), F("pool_index", INT), F("set_index", INT), F("disk_index", INT)])
  }

  function HealOpts(): Type {
    TRecord([
      F("recursive", TBool), F("dryRun", TBool), F("remove", TBool), F("recreate", TBool), F("scanMode", INT),
      F("updateParity", TBool), F("nolock", TBool), O("pool", TOpt(INT)), O("set", TOpt(INT))])
  }

  function MRFStatus(): Type { TRecord([F("bytes_healed", UINT), F("items_healed", UINT)]) }

  function SetStatus(): Type {
    TRecord([
      F("id", TStr), F("pool_index", INT), F("set_index", INT), F("heal_status", TStr), F("heal_priority", TStr),
      F("total_objects", INT), F("disks", TSlice(Disk()))])
  }

  function BgHealState(): Type {
    TRecord([
      F("offline_nodes", TSlice(TStr)), F("ScannedItemsCount", INT), F("HealDisks", TSlice(TStr)),
      F("sets", TSlice(SetStatus())), F("mrf", TDict(MRFStatus())), F("sc_parity", TDict(INT))])
  }

  // ----- metrics_gen.go

  function RPCStats(): Type {
    TRecord([
      O("startTime", TOpt(TTime)), O("endTime", TOpt(TTime)), O("wallTimeSecs", TFloat), O("requests", INT),
      O("requestTimeSecs", TFloat), O("incomingBytes", INT), O("outgoingBytes", INT)])
  }

  function RejectedAPIStats(): Type {
    TRecord([
      O("auth", INT), O("requestsTime", INT), O("header", INT), O("invalid", INT), O("notImplemented", INT)])
  }

  /** The encoder never omits `rejected`, although the decoder clears it. */
  function APIStats(): Type {
    TRecord([
      O("nodes", INT), O("startTime", TOpt(TTime)), O("endTime", TOpt(TTime)), O("wallTimeSecs", TFloat),
      O("requests", INT), O("incomingBytes", INT), O("outgoingBytes", INT), O("errors_4xx", INT),
      O("errors_5xx", INT), O("canceled", INT), O("requestTimeSecs", TFloat), O("reqReadSecs", TFloat),
      O("respSecs", TFloat), O("respTtfbSecs", TFloat), O("readBlocked", TFloat), O("writeBlocked", TFloat),
      O("requestTimeSecsMin", TFloat), O("requestTimeSecsMax", TFloat), O("reqReadSecsMin", TFloat),
      O("reqReadSecsMax", TFloat), O("respSecsMin", TFloat), O("respSecsMax", TFloat), O("respTtfbSecsMin", TFloat),
      O("respTtfbSecsMax", TFloat), O("rejected", RejectedAPIStats())])
  }

  // ----- metrics_msgp.go

  function Segmented(elem: Type): Type { TRecord([O("int", INT), O("ft", TTime), O("segs", TSlice(elem))]) }
}
