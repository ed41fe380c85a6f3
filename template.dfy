// A reusable run blueprint: a game name and its segment names.

module Templates {
  import opened SplitSpec

  /** Timestamps are integers supplied by the caller (the source reads the
      wall clock once per creation). */
  datatype Template = Template(
    id: string,
    name: string,
    segmentNames: seq<string>,
    createdAt: int,
    updatedAt: int)

  /** A template created at time `now`: identity, name and segment names are
      stored as given, and both timestamps are the one creation instant. */
  function NewTemplate(id: string, name: string, segmentNames: seq<string>, now: int): (t: Template)
    ensures t.id == id && t.name == name
    ensures |t.segmentNames| == |segmentNames|
    ensures forall i :: 0 <= i < |segmentNames| ==> t.segmentNames[i] == segmentNames[i]
    ensures t.createdAt == t.updatedAt == now
  {
    Template(id, name, segmentNames, now, now)
  }

  /** Snapshotting a template's names into fresh segments (as a new attempt
      aggregate does) gives back the template's names in order, with no
      cached times. */
  lemma SnapshotKeepsTemplateNames(id: string, name: string, segmentNames: seq<string>, now: int)
    ensures var segs := FreshSegments(NewTemplate(id, name, segmentNames, now).segmentNames);
      Names(segs) == segmentNames &&
      forall i :: 0 <= i < |segs| ==> segs[i].personalBestMS == 0 && segs[i].bestSegmentMS == 0
  {
    FreshSegmentsRoundTrip(segmentNames);
  }
}
