/** The record layouts are well formed, and so their values survive the wire. */
module LayoutLaws {
  import opened Basics
  import opened MsgPack
  import opened Schema
  import opened WireForms
  import opened CodecLaws
  import opened Layouts
  import opened RecordLaws

  // ----- The layouts are well formed

  /** These keys differ in their length, their first character, the one at l, or the last but m. */
  predicate TellApart(s: string, t: string, l: nat, m: nat) {
    || |s| != |t|
    || (l < |s| && m < |s| &&
         (Ascii(s[0]) != Ascii(t[0]) || Ascii(s[l]) != Ascii(t[l]) || Ascii(s[|s| - 1 - m]) != Ascii(t[|s| - 1 - m])))
  }

  /** A record is well formed if these are the keys of its fields, in order, and they can be told apart. */
  lemma {:induction false} RecordOk(t: Type, keys: seq<string>, l: nat, m: nat)
    requires t.TRecord? && |t.fields| == |keys| < 0x1_0000
    requires forall i :: 0 <= i < |keys| ==> t.fields[i].name == Key(keys[i]) && t.fields[i].typ.Ok()
    requires forall i :: 0 <= i < |keys| ==> |keys[i]| < 0x20
    requires forall i, j :: 0 <= i < j < |keys| ==> TellApart(keys[i], keys[j], l, m)
    ensures t.Ok()
  {
    hide TellApart, Key;
    forall i, j | 0 <= i < j < |keys| ensures t.fields[i].name != t.fields[j].name {
      DifferentKeys(keys[i], keys[j], l, m);
    }
  }

  lemma DifferentKeys(s: string, t: string, l: nat, m: nat)
    requires TellApart(s, t, l, m)
    ensures Key(s) != Key(t)
  {
  }

  lemma CredentialsOk()
    ensures Credentials().Ok()
  {
    hide Key;
    RecordOk(Credentials(), ["accessKey", "secretKey", "sessionToken", "expiration"], 0, 0);
  }

  lemma LatencyOk()
    ensures Latency().Ok()
  {
    hide Key;
    RecordOk(Latency(), ["Curr", "Avg", "Max"], 0, 0);
  }

  function BucketTargetKeys(): seq<string> {
    [
      "sourcebucket", "endpoint", "credentials", "targetbucket", "secure", "path", "api", "arn", "type", "region",
      "bandwidthlimit", "replicationSync", "storageclass", "healthCheckDuration", "disableProxy", "resetBeforeDate",
      "resetID", "totalDowntime", "lastOnline", "isOnline", "latency", "deploymentID", "edge",
      "edgeSyncBeforeExpiry", "offlineCount", "insecureTLS"]
  }

  lemma BucketTargetFirstApart()
    ensures var keys := BucketTargetKeys();
            forall i, j :: 0 <= i < j < |keys| && i < 9 ==> TellApart(keys[i], keys[j], 0, 0)
  {
  }

  lemma BucketTargetLastApart()
    ensures var keys := BucketTargetKeys();
            forall i, j :: 9 <= i < j < |keys| ==> TellApart(keys[i], keys[j], 0, 0)
  {
  }

  lemma BucketTargetApart()
    ensures var keys := BucketTargetKeys();
            forall i, j :: 0 <= i < j < |keys| ==> TellApart(keys[i], keys[j], 0, 0)
  {
    hide BucketTargetKeys, TellApart;
    BucketTargetFirstApart();
    BucketTargetLastApart();
  }

  lemma BucketTargetKeyed()
    ensures var fs := BucketTarget().fields;
            && |fs| == |BucketTargetKeys()|
            && forall i :: 0 <= i < |fs| ==> fs[i].name == Key(BucketTargetKeys()[i]) && |BucketTargetKeys()[i]| < 0x20
  {
    hide Key, Credentials, Latency;
  }

  lemma BucketTargetTypesOk()
    ensures var fs := BucketTarget().fields; forall i :: 0 <= i < |fs| ==> fs[i].typ.Ok()
  {
    CredentialsOk();
    LatencyOk();
    assert Credentials().TRecord?;
    hide Key, Credentials, Latency;
  }

  lemma BucketTargetOk()
    ensures BucketTarget().Ok()
  {
    assert BucketTarget().TRecord?;
    hide Key, BucketTarget, BucketTargetKeys, TellApart;
    BucketTargetApart();
    BucketTargetKeyed();
    BucketTargetTypesOk();
    RecordOk(BucketTarget(), BucketTargetKeys(), 0, 0);
  }

  lemma BucketTargetsOk()
    ensures BucketTargets().Ok()
  {
    BucketTargetOk();
    hide Key, BucketTarget;
    RecordOk(BucketTargets(), ["targets"], 0, 0);
  }

  lemma OfflineEventOk()
    ensures OfflineEvent().Ok()
  {
    hide Key;
    RecordOk(OfflineEvent(), ["from_time", "to_time", "reason", "decision"], 0, 0);
  }

  lemma OfflineInfoOk()
    ensures OfflineInfo().Ok()
  {
    OfflineEventOk();
    hide Key, OfflineEvent;
    RecordOk(OfflineInfo(), ["events"], 0, 0);
  }

  function HealingDiskKeys(): seq<string> {
    [
      "id", "heal_id", "pool_index", "set_index", "disk_index", "endpoint", "path", "started", "last_update",
      "retry_attempts", "objects_total_count", "objects_total_size", "items_healed", "items_failed",
      "items_skipped", "bytes_done", "bytes_failed", "bytes_skipped", "current_bucket", "current_object",
      "queued_buckets", "healed_buckets", "finished", "reason"]
  }

  lemma HealingDiskApart()
    ensures var keys := HealingDiskKeys();
            forall i, j :: 0 <= i < j < |keys| ==> TellApart(keys[i], keys[j], 0, 3)
  {
  }

  lemma HealingDiskKeyed()
    ensures var fs := HealingDisk().fields;
            && |fs| == |HealingDiskKeys()|
            && forall i :: 0 <= i < |fs| ==> fs[i].name == Key(HealingDiskKeys()[i]) && |HealingDiskKeys()[i]| < 0x20
  {
    hide Key;
  }

  lemma HealingDiskOk()
    ensures HealingDisk().Ok()
  {
    HealingDiskApart();
    HealingDiskKeyed();
    hide Key, HealingDiskKeys;
    RecordOk(HealingDisk(), HealingDiskKeys(), 0, 3);
  }

  lemma CacheStatsOk()
    ensures CacheStats().Ok()
  {
    hide Key;
    RecordOk(CacheStats(), ["n", "cap", "used", "hits", "misses", "delHits", "delMisses", "collisions"], 0, 0);
  }

  lemma DiskStatusOk()
    ensures DiskStatus().Ok()
  {
    hide Key;
    RecordOk(DiskStatus(), ["totalWaiting", "totalErrorsAvailability", "totalErrorsTimeout"], 0, 0);
  }

  function DiskKeys(): seq<string> {
    [
      "endpoint", "rootDisk", "path", "healing", "healing_queued", "scanning", "state", "uuid", "major", "minor",
      "model", "totalspace", "usedspace", "availspace", "readthroughput", "writethroughput", "readlatency",
      "writelatency", "utilization", "metrics", "heal_info", "offline_info", "used_inodes", "free_inodes", "local",
      "cacheStats", "pool_index", "set_index", "disk_index"]
  }

  lemma DiskApart()
    ensures var keys := DiskKeys();
            forall i, j :: 0 <= i < j < |keys| ==> TellApart(keys[i], keys[j], 1, 0)
  {
  }

  lemma DiskKeyed()
    ensures var fs := Disk().fields;
            && |fs| == |DiskKeys()|
            && forall i :: 0 <= i < |fs| ==> fs[i].name == Key(DiskKeys()[i]) && |DiskKeys()[i]| < 0x20
  {
    hide Key, DiskStatus, HealingDisk, OfflineInfo, CacheStats;
  }

  lemma DiskTypesOk()
    ensures var fs := Disk().fields; forall i :: 0 <= i < |fs| ==> fs[i].typ.Ok()
  {
    DiskStatusOk();
    HealingDiskOk();
    OfflineInfoOk();
    CacheStatsOk();
    assert DiskStatus().TRecord? && HealingDisk().TRecord? && OfflineInfo().TRecord? && CacheStats().TRecord?;
    hide Key, DiskStatus, HealingDisk, OfflineInfo, CacheStats;
  }

  lemma DiskOk()
    ensures Disk().Ok()
  {
    assert Disk().TRecord?;
    hide Key, Disk, DiskKeys, TellApart;
    DiskApart();
    DiskKeyed();
    DiskTypesOk();
    RecordOk(Disk(), DiskKeys(), 1, 0);
  }

  lemma HealOptsOk()
    ensures HealOpts().Ok()
  {
    hide Key;
    RecordOk(HealOpts(),
             ["recursive", "dryRun", "remove", "recreate", "scanMode", "updateParity", "nolock", "pool", "set"], 0, 0);
  }

  lemma MRFStatusOk()
    ensures MRFStatus().Ok()
  {
    hide Key;
    RecordOk(MRFStatus(), ["bytes_healed", "items_healed"], 0, 0);
  }

  lemma SetStatusOk()
    ensures SetStatus().Ok()
  {
    DiskOk();
    hide Key, Disk;
    RecordOk(SetStatus(),
             ["id", "pool_index", "set_index", "heal_status", "heal_priority", "total_objects", "disks"], 0, 0);
  }

  lemma BgHealStateOk()
    ensures BgHealState().Ok()
  {
    SetStatusOk();
    MRFStatusOk();
    hide Key, SetStatus, MRFStatus;
    RecordOk(BgHealState(), ["offline_nodes", "ScannedItemsCount", "HealDisks", "sets", "mrf", "sc_parity"], 0, 0);
  }

  lemma RPCStatsOk()
    ensures RPCStats().Ok()
  {
    hide Key;
    RecordOk(RPCStats(),
             ["startTime", "endTime", "wallTimeSecs", "requests", "requestTimeSecs", "incomingBytes", "outgoingBytes"],
             0, 0);
  }

  lemma RejectedAPIStatsOk()
    ensures RejectedAPIStats().Ok()
  {
    hide Key;
    RecordOk(RejectedAPIStats(), ["auth", "requestsTime", "header", "invalid", "notImplemented"], 0, 0);
  }

  function APIStatsKeys(): seq<string> {
    [
      "nodes", "startTime", "endTime", "wallTimeSecs", "requests", "incomingBytes", "outgoingBytes", "errors_4xx",
      "errors_5xx", "canceled", "requestTimeSecs", "reqReadSecs", "respSecs", "respTtfbSecs", "readBlocked",
      "writeBlocked", "requestTimeSecsMin", "requestTimeSecsMax", "reqReadSecsMin", "reqReadSecsMax", "respSecsMin",
      "respSecsMax", "respTtfbSecsMin", "respTtfbSecsMax", "rejected"]
  }

  lemma APIStatsApart()
    ensures var keys := APIStatsKeys();
            forall i, j :: 0 <= i < j < |keys| ==> TellApart(keys[i], keys[j], 7, 1)
  {
  }

  lemma APIStatsKeyed()
    ensures var fs := APIStats().fields;
            && |fs| == |APIStatsKeys()|
            && forall i :: 0 <= i < |fs| ==> fs[i].name == Key(APIStatsKeys()[i]) && |APIStatsKeys()[i]| < 0x20
  {
    hide Key, RejectedAPIStats;
  }

  lemma APIStatsOk()
    ensures APIStats().Ok()
  {
    RejectedAPIStatsOk();
    APIStatsApart();
    APIStatsKeyed();
    hide Key, RejectedAPIStats, APIStatsKeys;
    RecordOk(APIStats(), APIStatsKeys(), 7, 1);
  }

  lemma {:induction false} SegmentedOk(elem: Type)
    requires elem.Ok()
    ensures Segmented(elem).Ok()
  {
    hide Key;
    RecordOk(Segmented(elem), ["int", "ft", "segs"], 0, 0);
  }

  // ----- The codecs of these records

  /**
   v survives the wire: decoding it from the front of any input, into a receiver holding any z, gives
   v back and leaves the rest; what is written is one object, no longer than announced.
   */
  ghost predicate Survives(t: Type, z: Value, v: Value, tail: bytes)
    requires t.Ok() && Has(t, z) && Has(t, v)
  {
    && Reads(Decode(t, z, Encode(t, v) + tail), v, tail)
    && Skip(Encode(t, v) + tail) == Ok(tail)
    && |Encode(t, v)| <= Msgsize(t, v)
  }

  lemma {:induction false} AllSurvive(t: Type, z: Value, v: Value, tail: bytes)
    requires t.Ok() && Has(t, z) && Has(t, v)
    ensures Survives(t, z, v, tail)
  {
    hide Reads, Decode, Encode, Skip, Msgsize, Has;
    RoundTrip(t, z, v, tail);
    EncodesOneObject(t, v, tail);
    SizeBound(t, v);
  }

  lemma {:induction false} BucketTargetsSurvive(z: Value, v: Value, tail: bytes)
    requires Has(BucketTargets(), z) && Has(BucketTargets(), v)
    ensures BucketTargets().Ok() && Survives(BucketTargets(), z, v, tail)
  {
    hide Survives, Has;
    BucketTargetsOk();
    AllSurvive(BucketTargets(), z, v, tail);
  }

  /** For any number and order of the entries of the two maps. */
  lemma {:induction false} BgHealStateSurvives(z: Value, v: Value, tail: bytes)
    requires Has(BgHealState(), z) && Has(BgHealState(), v)
    ensures BgHealState().Ok() && Survives(BgHealState(), z, v, tail)
  {
    hide Survives, Has;
    BgHealStateOk();
    AllSurvive(BgHealState(), z, v, tail);
  }

  lemma {:induction false} HealOptsSurvive(z: Value, v: Value, tail: bytes)
    requires Has(HealOpts(), z) && Has(HealOpts(), v)
    ensures HealOpts().Ok() && Survives(HealOpts(), z, v, tail)
  {
    hide Survives, Has;
    HealOptsOk();
    AllSurvive(HealOpts(), z, v, tail);
  }

  /** A series survives with any element codec. */
  lemma {:induction false} SegmentedSurvives(elem: Type, z: Value, v: Value, tail: bytes)
    requires elem.Ok() && Has(Segmented(elem), z) && Has(Segmented(elem), v)
    ensures Segmented(elem).Ok() && Survives(Segmented(elem), z, v, tail)
  {
    hide Survives, Has;
    SegmentedOk(elem);
    AllSurvive(Segmented(elem), z, v, tail);
  }

  /** The series of RPCMetrics. */
  lemma {:induction false} RPCSeriesSurvive(z: Value, v: Value, tail: bytes)
    requires Has(Segmented(RPCStats()), z) && Has(Segmented(RPCStats()), v)
    ensures Segmented(RPCStats()).Ok() && Survives(Segmented(RPCStats()), z, v, tail)
  {
    hide Survives, Has, RPCStats;
    RPCStatsOk();
    SegmentedSurvives(RPCStats(), z, v, tail);
  }

  /** The series of APIMetrics. */
  lemma {:induction false} APISeriesSurvive(z: Value, v: Value, tail: bytes)
    requires Has(Segmented(APIStats()), z) && Has(Segmented(APIStats()), v)
    ensures Segmented(APIStats()).Ok() && Survives(Segmented(APIStats()), z, v, tail)
  {
    hide Survives, Has, APIStats;
    APIStatsOk();
    SegmentedSurvives(APIStats(), z, v, tail);
  }

  /** The zero `RPCStats`, all of whose fields may be omitted, is written as the empty map. */
  lemma {:induction false} ZeroRPCStats()
    ensures RPCStats().Ok() && Encode(RPCStats(), Zero(RPCStats())) == [0x80]
  {
    RPCStatsOk();
    ZeroRecord(RPCStats().fields);
  }
}
