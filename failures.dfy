/** The failure recorder: a failure record is one JSON object with the keys
    `name`, `params`, `info` and `block`, written to the failure directory
    under `fail_<name>_<count>.json`, where <count> is the number of entries
    the directory holds at that moment. */
module Failures {
  import opened Calls
  import opened Text

  datatype Json =
    | JInt(n: int)
    | JStr(s: string)
    | JList(items: seq<Json>)
    | JObject(fields: map<string, Json>)

  datatype FailureRecord = FailureRecord(name: string, params: map<string, Json>, info: string, block: nat)

  /** The JSON object written for a record. */
  function Encode(r: FailureRecord): (obj: map<string, Json>)
    ensures obj.Keys == {"name", "params", "info", "block"}
  {
    map["name" := JStr(r.name), "params" := JObject(r.params), "info" := JStr(r.info), "block" := JInt(r.block)]
  }

  /** Reads a JSON object back as a record, if it has the record's shape. */
  function Decode(obj: map<string, Json>): Option<FailureRecord> {
    if obj.Keys == {"name", "params", "info", "block"}
       && obj["name"].JStr? && obj["params"].JObject? && obj["info"].JStr?
       && obj["block"].JInt? && obj["block"].n >= 0
    then Some(FailureRecord(obj["name"].s, obj["params"].fields, obj["info"].s, obj["block"].n))
    else None
  }

  /** A written record reloads as the same name, params, info and block. */
  lemma DecodeEncode(r: FailureRecord)
    ensures Decode(Encode(r)) == Some(r)
  {
  }

  /** Every object that reloads as a record is exactly that record's encoding. */
  lemma EncodeDecode(obj: map<string, Json>)
    requires Decode(obj).Some?
    ensures Encode(Decode(obj).value) == obj
  {
    var e := Encode(Decode(obj).value);
    assert e.Keys == obj.Keys;
    forall k | k in obj ensures e[k] == obj[k] {
      assert k == "name" || k == "params" || k == "info" || k == "block";
    }
  }

  function FileName(name: string, index: nat): string {
    "fail_" + name + "_" + NatToString(index) + ".json"
  }

  /** Splitting at the last separator: what follows it is determined when it
      holds no separator. */
  lemma SplitAtLastSeparator(a1: string, d1: string, a2: string, d2: string)
    requires a1 + "_" + d1 == a2 + "_" + d2
    requires '_' !in d1 && '_' !in d2
    ensures a1 == a2 && d1 == d2
  {
    var s := a1 + "_" + d1;
    if |d1| < |d2| {
      SeparatorAt(a1, d1);
      assert false;
    } else if |d2| < |d1| {
      SeparatorAt(a2, d2);
      assert false;
    }
    assert a1 == s[..|a1|] == a2;
    assert d1 == s[|a1| + 1..] == d2;
  }

  lemma SeparatorAt(a: string, d: string)
    ensures (a + "_" + d)[|a|] == '_'
  {
  }

  lemma NoSeparatorInDigits(d: string)
    requires AllDigits(d)
    ensures '_' !in d
  {
  }

  /** Two records never share a file name unless both name and index agree. */
  lemma FileNameInjective(n1: string, k1: nat, n2: string, k2: nat)
    requires FileName(n1, k1) == FileName(n2, k2)
    ensures n1 == n2 && k1 == k2
  {
    var d1, d2 := NatToString(k1), NatToString(k2);
    NoSeparatorInDigits(d1);
    NoSeparatorInDigits(d2);
    assert FileName(n1, k1) == ("fail_" + n1) + "_" + (d1 + ".json");
    assert FileName(n2, k2) == ("fail_" + n2) + "_" + (d2 + ".json");
    SplitAtLastSeparator("fail_" + n1, d1 + ".json", "fail_" + n2, d2 + ".json");
    assert n1 == ("fail_" + n1)[5..] == ("fail_" + n2)[5..] == n2;
    assert d1 == (d1 + ".json")[..|d1 + ".json"| - 5] == (d2 + ".json")[..|d2 + ".json"| - 5] == d2;
    NatToStringInjective(k1, k2);
  }

  /** The directory after saving `r`: the file index is the entry count. */
  function Saved(dir: map<string, Json>, r: FailureRecord): map<string, Json> {
    dir[FileName(r.name, |dir|) := JObject(Encode(r))]
  }

  /** The directory obtained by writing the k-th record of `log` to
      `fail_<name>_k.json`, starting from an empty directory. */
  function Replay(log: seq<FailureRecord>): map<string, Json> {
    if log == [] then map[]
    else Replay(log[..|log| - 1])[FileName(log[|log| - 1].name, |log| - 1) := JObject(Encode(log[|log| - 1]))]
  }

  /** Every entry of a replayed directory is the file of one of the saves. */
  lemma {:induction false} ReplayKeys(log: seq<FailureRecord>)
    ensures forall f :: f in Replay(log) ==> exists k :: 0 <= k < |log| && f == FileName(log[k].name, k)
  {
    if log != [] {
      var n := |log| - 1;
      var prefix := log[..n];
      ReplayKeys(prefix);
      forall f | f in Replay(log)
        ensures exists k :: 0 <= k < |log| && f == FileName(log[k].name, k)
      {
        if f != FileName(log[n].name, n) {
          assert f in Replay(prefix);
          var k :| 0 <= k < n && f == FileName(prefix[k].name, k);
          assert prefix[k] == log[k];
        }
      }
    }
  }

  /** The next record's file is one no earlier record used. */
  lemma NextNameIsNew(log: seq<FailureRecord>, name: string)
    ensures FileName(name, |log|) !in Replay(log)
  {
    ReplayKeys(log);
    if FileName(name, |log|) in Replay(log) {
      var k :| 0 <= k < |log| && FileName(name, |log|) == FileName(log[k].name, k);
      FileNameInjective(name, |log|, log[k].name, k);
    }
  }

  /** A replayed directory holds one entry per record. */
  lemma {:induction false} ReplayCount(log: seq<FailureRecord>)
    ensures |Replay(log)| == |log|
  {
    if log != [] {
      var n := |log| - 1;
      ReplayCount(log[..n]);
      NextNameIsNew(log[..n], log[n].name);
    }
  }

  /** Record k of a replayed directory sits in `fail_<name>_k.json`: no
      record overwrites an earlier one. */
  lemma {:induction false} ReplayContents(log: seq<FailureRecord>)
    ensures forall k :: 0 <= k < |log| ==>
              FileName(log[k].name, k) in Replay(log) && Replay(log)[FileName(log[k].name, k)] == JObject(Encode(log[k]))
  {
    if log != [] {
      var n := |log| - 1;
      var prefix := log[..n];
      ReplayContents(prefix);
      forall k | 0 <= k < n
        ensures FileName(log[k].name, k) in Replay(log) && Replay(log)[FileName(log[k].name, k)] == JObject(Encode(log[k]))
      {
        assert prefix[k] == log[k];
        if FileName(log[k].name, k) == FileName(log[n].name, n) {
          FileNameInjective(log[k].name, k, log[n].name, n);
        }
      }
    }
  }

  /** While the directory holds only the records the harness saved into
      it, the count-based index of the next save is that record's position:
      saving extends the replay, and the directory grows by exactly one entry. */
  lemma SaveExtendsReplay(log: seq<FailureRecord>, r: FailureRecord)
    ensures Saved(Replay(log), r) == Replay(log + [r])
    ensures |Saved(Replay(log), r)| == |Replay(log)| + 1
  {
    assert (log + [r])[..|log|] == log;
    ReplayCount(log);
    ReplayCount(log + [r]);
  }

  /** The count-based index is not collision-free in general: once an earlier
      record has been removed, the next save reuses the index of the newest
      one and overwrites that file. */
  lemma RemovedRecordCausesOverwrite(r: FailureRecord, survivor: Json)
    ensures var dir := map[FileName(r.name, 1) := survivor];
            |Saved(dir, r)| == |dir| && Saved(dir, r)[FileName(r.name, 1)] == JObject(Encode(r))
  {
  }

  /** The failure directory on disk, as a map from entry name to contents. */
  class FailureDir {
    var entries: map<string, Json>

    constructor (existing: map<string, Json>)
      ensures entries == existing
    {
      entries := existing;
    }

    /** Writes one record; the file index is the number of entries already
        in the directory. */
    method Save(name: string, params: map<string, Json>, info: string, block: nat) returns (fileName: string)
      modifies this
      ensures fileName == FileName(name, |old(entries)|)
      ensures entries == Saved(old(entries), FailureRecord(name, params, info, block))
    {
      fileName := FileName(name, |entries|);
      entries := entries[fileName := JObject(Encode(FailureRecord(name, params, info, block)))];
    }
  }
}
