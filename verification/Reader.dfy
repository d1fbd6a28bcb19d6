/** The trace reader: records as they stand in the file, handed on in stamp order. */
module Reader {
  import opened Sorting
  import opened Traces

  function EventKey(e: Event): int { e.index }

  function MarkerKey(m: Marker): int { m.index }

  function EventsOf(records: seq<Record>): seq<Event> {
    if records == [] then [] else
      EventsOf(records[..|records| - 1])
      + (if records[|records| - 1].EventRecord? then [records[|records| - 1].event] else [])
  }

  function MarkersOf(records: seq<Record>): seq<Marker> {
    if records == [] then [] else
      MarkersOf(records[..|records| - 1])
      + (if records[|records| - 1].MarkerRecord? then [records[|records| - 1].marker] else [])
  }

  /** `parseTrace`, from parsed records on. */
  function Parsed(records: seq<Record>): Trace {
    Trace(SortBy(EventsOf(records), EventKey), SortBy(MarkersOf(records), MarkerKey))
  }

  function RecordIndex(r: Record): nat { if r.EventRecord? then r.event.index else r.marker.index }

  /** No two records carry the same submission stamp. */
  ghost predicate UniqueStamps(records: seq<Record>) {
    forall i, j :: 0 <= i < j < |records| ==> RecordIndex(records[i]) != RecordIndex(records[j])
  }

  lemma {:induction false} EventsMembers(records: seq<Record>, e: Event)
    ensures e in EventsOf(records) <==> EventRecord(e) in records
  {
    if records != [] {
      EventsMembers(records[..|records| - 1], e);
      assert records == records[..|records| - 1] + [records[|records| - 1]];
    }
  }

  lemma {:induction false} MarkersMembers(records: seq<Record>, m: Marker)
    ensures m in MarkersOf(records) <==> MarkerRecord(m) in records
  {
    if records != [] {
      MarkersMembers(records[..|records| - 1], m);
      assert records == records[..|records| - 1] + [records[|records| - 1]];
    }
  }

  lemma LastEventDistinct(records: seq<Record>, e: Event)
    requires records != [] && UniqueStamps(records) && records[|records| - 1].EventRecord?
    requires e in EventsOf(records[..|records| - 1])
    ensures e.index != records[|records| - 1].event.index
  {
    var rest := records[..|records| - 1];
    EventsMembers(rest, e);
    var i :| 0 <= i < |rest| && rest[i] == EventRecord(e);
    assert RecordIndex(records[i]) != RecordIndex(records[|records| - 1]);
  }

  lemma LastMarkerDistinct(records: seq<Record>, m: Marker)
    requires records != [] && UniqueStamps(records) && records[|records| - 1].MarkerRecord?
    requires m in MarkersOf(records[..|records| - 1])
    ensures m.index != records[|records| - 1].marker.index
  {
    var rest := records[..|records| - 1];
    MarkersMembers(rest, m);
    var i :| 0 <= i < |rest| && rest[i] == MarkerRecord(m);
    assert RecordIndex(records[i]) != RecordIndex(records[|records| - 1]);
  }

  lemma {:induction false} EventsDistinct(records: seq<Record>)
    requires UniqueStamps(records)
    ensures DistinctKeys(EventsOf(records), EventKey)
  {
    if records != [] {
      var rest := records[..|records| - 1];
      EventsDistinct(rest);
      if records[|records| - 1].EventRecord? {
        forall i | 0 <= i < |EventsOf(rest)| ensures EventsOf(rest)[i].index != records[|records| - 1].event.index {
          LastEventDistinct(records, EventsOf(rest)[i]);
        }
      }
    }
  }

  lemma {:induction false} MarkersDistinct(records: seq<Record>)
    requires UniqueStamps(records)
    ensures DistinctKeys(MarkersOf(records), MarkerKey)
  {
    if records != [] {
      var rest := records[..|records| - 1];
      MarkersDistinct(rest);
      if records[|records| - 1].MarkerRecord? {
        forall i | 0 <= i < |MarkersOf(rest)| ensures MarkersOf(rest)[i].index != records[|records| - 1].marker.index {
          LastMarkerDistinct(records, MarkersOf(rest)[i]);
        }
      }
    }
  }

  /** Unique stamps make the parse independent of the order the records were appended in: it is the one
      strictly ordered arrangement of exactly the recorded events and markers. */
  lemma ParsedIsOrdered(records: seq<Record>)
    requires UniqueStamps(records)
    ensures StrictlySortedBy(Parsed(records).events, EventKey) && InStampOrder(Parsed(records).events)
    ensures StrictlySortedBy(Parsed(records).markers, MarkerKey)
    ensures forall i, j :: 0 <= i < j < |Parsed(records).markers| ==>
              Parsed(records).markers[i].index < Parsed(records).markers[j].index
    ensures forall e :: e in Parsed(records).events <==> EventRecord(e) in records
    ensures forall m :: m in Parsed(records).markers <==> MarkerRecord(m) in records
  {
    EventsDistinct(records);
    MarkersDistinct(records);
    SortIsStrict(EventsOf(records), EventKey);
    SortIsStrict(MarkersOf(records), MarkerKey);
    forall e ensures e in EventsOf(records) <==> EventRecord(e) in records { EventsMembers(records, e); }
    forall m ensures m in MarkersOf(records) <==> MarkerRecord(m) in records { MarkersMembers(records, m); }
  }

  /** Two files with the same records, in whatever order, parse to the same trace. */
  lemma ParseForgetsFileOrder(a: seq<Record>, b: seq<Record>)
    requires UniqueStamps(a) && UniqueStamps(b) && forall r :: r in a <==> r in b
    ensures Parsed(a) == Parsed(b)
  {
    ParsedIsOrdered(a);
    ParsedIsOrdered(b);
    hide Parsed;
    StrictOrderIsUnique(Parsed(a).events, Parsed(b).events, EventKey);
    StrictOrderIsUnique(Parsed(a).markers, Parsed(b).markers, MarkerKey);
  }

  lemma {:induction false} RecordsAppend(a: seq<Record>, b: seq<Record>)
    ensures EventsOf(a + b) == EventsOf(a) + EventsOf(b)
    ensures MarkersOf(a + b) == MarkersOf(a) + MarkersOf(b)
  {
    if b == [] {
      assert a + b == a;
    } else {
      RecordsAppend(a, b[..|b| - 1]);
      assert (a + b)[..|a + b| - 1] == a + b[..|b| - 1];
    }
  }

  lemma OneRecord(r: Record)
    ensures EventsOf([r]) == if r.EventRecord? then [r.event] else []
    ensures MarkersOf([r]) == if r.MarkerRecord? then [r.marker] else []
  {
    assert [r][..0] == [];
  }

  lemma {:induction false} OneMore(records: seq<Record>, r: Record)
    ensures EventsOf(records + [r]) == EventsOf(records) + if r.EventRecord? then [r.event] else []
    ensures MarkersOf(records + [r]) == MarkersOf(records) + if r.MarkerRecord? then [r.marker] else []
  {
    assert (records + [r])[..|records|] == records;
  }
}
