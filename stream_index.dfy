/**
 * The schedule records and the date index `streamsByDate` built from them
 * when the schedule page module loads.
 */
module StreamIndex {
  import opened Options
  import opened CalendarDates
  import opened IsoDates

  /**
   * One predicted stream, as the schedule file holds it.  `duration_hours`
   * is a float that only feeds display formatting and is not modelled.
   */
  datatype StreamRecord = StreamRecord(
    id: int,
    date: string,
    startTime: string,
    endTime: string,
    game: string,
    predictedAvgViewers: int,
    predictedPeakViewers: int,
    predictedFollowersGain: int,
    isNightStream: bool,
    isWeekend: bool,
    weekdayRu: string,
    season: string)

  /** The parsed calendar date of a record, None for an Invalid Date. */
  function RecordDate(r: StreamRecord): Option<Date> {
    ParseIsoDate(r.date)
  }

  /**
   * `format(parseISO(r.date), 'yyyy-MM-dd')`; None where `format` throws
   * a RangeError because the date did not parse.
   */
  function RecordKey(r: StreamRecord): (k: Option<string>)
    ensures k.Some? <==> RecordDate(r).Some?
    ensures k.Some? && RecordDate(r).value.year != 0 ==> k.value == r.date
  {
    match RecordDate(r)
    case None => None
    case Some(d) =>
      if d.year != 0 then FormatParsedKey(r.date); Some(FormatKey(d))
      else Some(FormatKey(d))
  }

  predicate AllKeysDefined(rs: seq<StreamRecord>) {
    forall i :: 0 <= i < |rs| ==> RecordKey(rs[i]).Some?
  }

  /** The `[key, record]` pairs handed to the Map constructor, in list order. */
  function KeyedEntries(rs: seq<StreamRecord>): (es: seq<(string, StreamRecord)>)
    requires AllKeysDefined(rs)
    ensures |es| == |rs|
    ensures forall i :: 0 <= i < |rs| ==> es[i] == (RecordKey(rs[i]).value, rs[i])
  {
    seq(|rs|, i requires 0 <= i < |rs| => (RecordKey(rs[i]).value, rs[i]))
  }

  /**
   * `new Map(entries)`: entries are set in order, so a later entry with the
   * same key replaces an earlier one.
   */
  function MapFromEntries<K, V>(es: seq<(K, V)>): (m: map<K, V>)
    ensures forall i :: 0 <= i < |es| ==> es[i].0 in m
    ensures es != [] ==> m[es[|es| - 1].0] == es[|es| - 1].1
  {
    if es == [] then map[]
    else MapFromEntries(es[..|es| - 1])[es[|es| - 1].0 := es[|es| - 1].1]
  }

  /**
   * The index, or None when some record's date does not parse: computing
   * its key throws while the module loads and the page never renders.
   */
  function BuildIndex(rs: seq<StreamRecord>): (m: Option<map<string, StreamRecord>>)
    ensures m.Some? <==> forall i :: 0 <= i < |rs| ==> RecordDate(rs[i]).Some?
  {
    if AllKeysDefined(rs) then Some(MapFromEntries(KeyedEntries(rs))) else None
  }

  /** `streamsByDate.get(format(d, 'yyyy-MM-dd')) || null`. */
  function Lookup(index: map<string, StreamRecord>, d: Date): (r: Option<StreamRecord>)
    requires ValidDate(d)
    ensures r.Some? <==> FormatKey(d) in index
    ensures r.Some? ==> r.value == index[FormatKey(d)]
  {
    var key := FormatKey(d);
    if key in index then Some(index[key]) else None
  }

  /** Position `i` is the last entry whose key is `k`. */
  ghost predicate IsLastWithKey<K, V>(es: seq<(K, V)>, i: int, k: K) {
    0 <= i < |es| && es[i].0 == k
    && forall j :: i < j < |es| ==> es[j].0 != k
  }

  /** The map holds exactly the keys of the entries. */
  lemma {:induction false} MapFromEntriesKeys<K, V>(es: seq<(K, V)>, k: K)
    ensures k in MapFromEntries(es) <==> exists i :: 0 <= i < |es| && es[i].0 == k
    decreases |es|
  {
    if es != [] {
      var init, n := es[..|es| - 1], |es| - 1;
      MapFromEntriesKeys(init, k);
      if k in MapFromEntries(init) {
        var i :| 0 <= i < |init| && init[i].0 == k;
        assert es[i] == init[i];
      } else if es[n].0 != k {
        forall i | 0 <= i < |es| ensures es[i].0 != k {
          if i < n {
            assert es[i] == init[i];
          }
        }
      }
    }
  }

  /** Under each key the map holds the value of the LAST entry with that key. */
  lemma {:induction false} MapFromEntriesLastWins<K, V>(es: seq<(K, V)>, k: K)
    requires k in MapFromEntries(es)
    ensures exists i :: IsLastWithKey(es, i, k) && MapFromEntries(es)[k] == es[i].1
    decreases |es|
  {
    var init, n := es[..|es| - 1], |es| - 1;
    if es[n].0 == k {
      assert IsLastWithKey(es, n, k);
    } else {
      assert k in MapFromEntries(init);
      MapFromEntriesLastWins(init, k);
      var i :| IsLastWithKey(init, i, k) && MapFromEntries(init)[k] == init[i].1;
      assert es[i] == init[i];
      assert IsLastWithKey(es, i, k);
    }
  }

  /** Record `i` is the last record in the list whose key is `k`. */
  ghost predicate IsLastRecordWithKey(rs: seq<StreamRecord>, i: int, k: string) {
    0 <= i < |rs| && RecordKey(rs[i]) == Some(k)
    && forall j :: i < j < |rs| ==> RecordKey(rs[j]) != Some(k)
  }

  /**
   * Looking a date up in the index built from `rs` finds the last record
   * whose date formats to the same key, and nothing when no record does.
   */
  lemma {:induction false} LookupFindsLastRecord(rs: seq<StreamRecord>, d: Date)
    requires BuildIndex(rs).Some? && ValidDate(d)
    ensures Lookup(BuildIndex(rs).value, d).None? <==>
              forall i :: 0 <= i < |rs| ==> RecordKey(rs[i]) != Some(FormatKey(d))
    ensures Lookup(BuildIndex(rs).value, d).Some? ==>
              exists i :: IsLastRecordWithKey(rs, i, FormatKey(d))
                          && Lookup(BuildIndex(rs).value, d) == Some(rs[i])
  {
    var es, k := KeyedEntries(rs), FormatKey(d);
    var index := MapFromEntries(es);
    assert BuildIndex(rs) == Some(index);
    MapFromEntriesKeys(es, k);
    if k in index {
      MapFromEntriesLastWins(es, k);
      var i :| IsLastWithKey(es, i, k) && index[k] == es[i].1;
      assert RecordKey(rs[i]) == Some(k);
      forall j | i < j < |rs| ensures RecordKey(rs[j]) != Some(k) {
        assert es[j].0 != k;
      }
      assert Lookup(index, d) == Some(rs[i]);
    } else {
      forall i | 0 <= i < |rs| ensures RecordKey(rs[i]) != Some(k) {
        assert es[i].0 != k;
      }
    }
  }

  /**
   * For dates of years 0001 to 9999 the key comparison is a date comparison:
   * a record is found for `d` exactly when its own date parses to `d`
   * (a record dated in year 0000 would also match year 0001).
   */
  lemma RecordKeyMatchesDate(r: StreamRecord, d: Date)
    requires ValidDate(d) && 1 <= d.year <= 9999
    requires RecordDate(r).Some? ==> RecordDate(r).value.year != 0
    ensures RecordKey(r) == Some(FormatKey(d)) <==> RecordDate(r) == Some(d)
  {
    if RecordDate(r).Some? && FormatKey(RecordDate(r).value) == FormatKey(d) {
      FormatKeyInjective(RecordDate(r).value, d);
    }
  }
}
