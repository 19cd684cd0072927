/**
 * The persisted form of a graph: the `Nodes` and `Connected` record types
 * that GraphEditor.SaveXML writes and GraphEditor.LoadXML reads. The XML
 * serializer and the file are not modelled; a file is its record sequence.
 */
module Records {
  import opened Geometry

  /** One stored neighbour entry: the neighbour's `index` and the edge weight. */
  datatype Connected = Connected(index: int, value: real)

  /** One stored node: its index, its active flag (`status`), position and neighbour entries. */
  datatype Nodes = Nodes(index: int, status: bool, position: Vec3, connected: seq<Connected>)

  /**
   * Every stored neighbour index is a position in the record sequence, which
   * is how LoadXML uses it (`nodes[connected[k].index]`).
   */
  predicate References(records: seq<Nodes>) {
    forall i, k | 0 <= i < |records| && 0 <= k < |records[i].connected| ::
      0 <= records[i].connected[k].index < |records|
  }

  /** Record i carries index i. */
  predicate IndexedByPosition(records: seq<Nodes>) {
    forall i | 0 <= i < |records| :: records[i].index == i
  }

  /**
   * The neighbour entry LoadXML followed by SaveXML gives back for a stored
   * entry: the stored index is used as an array position, and what is saved
   * is the index of the node found there.
   */
  function Resolve(records: seq<Nodes>, entry: Connected): Connected
    requires 0 <= entry.index < |records|
  {
    Connected(records[entry.index].index, entry.value)
  }

  /** The records LoadXML followed by SaveXML writes back. */
  function Relink(records: seq<Nodes>): (relinked: seq<Nodes>)
    requires References(records)
    ensures |relinked| == |records|
  {
    seq(|records|, i requires 0 <= i < |records| =>
      var r := records[i];
      r.(connected := seq(|r.connected|, k requires 0 <= k < |r.connected| => Resolve(records, r.connected[k]))))
  }

  /**
   * When every record sits at the position its index names, resolving by
   * position is resolving by index, and the records come back unchanged.
   */
  lemma RelinkIdentity(records: seq<Nodes>)
    requires References(records) && IndexedByPosition(records)
    ensures Relink(records) == records
  {
    var relinked := Relink(records);
    forall i | 0 <= i < |records| ensures relinked[i] == records[i] {
      var r := records[i];
      forall k | 0 <= k < |r.connected| ensures relinked[i].connected[k] == r.connected[k] {
        assert records[r.connected[k].index].index == r.connected[k].index;
      }
      assert relinked[i].connected == r.connected;
    }
  }

  /**
   * Without that layout a reference resolves to the wrong node: here record 0
   * (index 1) names index 0, LoadXML links it to position 0, which is itself,
   * and saving again writes index 1.
   */
  lemma RelinkByPosition()
    ensures var origin := Vec3(0.0, 0.0, 0.0);
      var records := [Nodes(1, true, origin, [Connected(0, 1.0)]), Nodes(0, true, origin, [])];
      References(records) && Relink(records)[0].connected[0] == Connected(1, 1.0)
      && Relink(records) != records
  {
    var origin := Vec3(0.0, 0.0, 0.0);
    var records := [Nodes(1, true, origin, [Connected(0, 1.0)]), Nodes(0, true, origin, [])];
    assert Relink(records)[0].connected[0] == Connected(1, 1.0);
    assert Relink(records)[0] != records[0];
  }
}
