/**
 * The profile store of `eco`: the list of connections kept in
 * `~/.eco/connection.json`, and what the `add`, `remove` and `con` commands
 * do with it. The file is the state: `None` when it is not on disk, `Some(cs)`
 * when it holds the list `cs`. Every write replaces the whole list.
 */
module Store {

  import opened Optional
  import opened Profiles

  /** `loadConnections`: a missing file and an empty list both mean "no
      profiles"; otherwise the stored list comes back as it is. */
  function LoadConnections(file: Option<seq<Connection>>): (r: Option<seq<Connection>>)
    ensures r.None? <==> (file == None || file == Some([]))
    ensures r.Some? ==> r == file && r.value != []
  {
    match file
    case None => None
    case Some(cs) => if |cs| == 0 then None else Some(cs)
  }

  /** Some stored record carries `id`. */
  predicate HasId(cs: seq<Connection>, id: int) {
    exists j :: 0 <= j < |cs| && cs[j].id == id
  }

  /** `connections.find(c => c.id === id)`, as the index it stops at: the
      first record with that id, or `None` when no record has it. */
  function FindIndex(cs: seq<Connection>, id: int): (r: Option<nat>)
    ensures r.Some? ==> r.value < |cs| && cs[r.value].id == id
    ensures r.Some? ==> forall j :: 0 <= j < r.value ==> cs[j].id != id
    ensures r.None? <==> !HasId(cs, id)
  {
    if cs == [] then None
    else if cs[0].id == id then Some(0)
    else match FindIndex(cs[1..], id)
      case None => None
      case Some(k) => Some(k + 1)
  }

  /** `connections.filter(c => c.id !== id)`: the survivors, unchanged, in
      their order; no record is renumbered. */
  function Without(cs: seq<Connection>, id: int): (r: seq<Connection>)
    ensures |r| <= |cs|
    ensures forall c {:trigger c in r} :: c in r <==> c in cs && c.id != id
  {
    if cs == [] then []
    else
      var rest := Without(cs[1..], id);
      assert cs == [cs[0]] + cs[1..];
      (if cs[0].id != id then [cs[0]] else []) + rest
  }

  /** With no record to drop, `Without` returns its input. */
  lemma {:induction false} WithoutUnmatched(cs: seq<Connection>, id: int)
    requires !HasId(cs, id)
    ensures Without(cs, id) == cs
  {
    if cs != [] {
      WithoutUnmatched(cs[1..], id);
      assert cs[0].id != id;
      assert [cs[0]] + cs[1..] == cs;
    }
  }

  /** The records that `Without` drops: those whose id is `id`. */
  function Matching(cs: seq<Connection>, id: int): seq<Connection>
  {
    if cs == [] then []
    else (if cs[0].id == id then [cs[0]] else []) + Matching(cs[1..], id)
  }

  /** The `add` action's write: the new record gets the current length as its
      id and goes at the end; the records before it are untouched. */
  function WithAdded(cs: seq<Connection>, d: Draft): (r: seq<Connection>)
    ensures |r| == |cs| + 1 && r[..|cs|] == cs
    ensures r[|cs|].id == |cs|
    ensures r[|cs|] == WithId(d, |cs|)
  {
    cs + [WithId(d, |cs|)]
  }

  /** What `remove <id>` reports, and the list it writes when it writes one. */
  datatype RemoveOutcome =
    | NothingToRemove
    | RemoveMissing(missing: int)
    | Removed(removed: Connection, remaining: seq<Connection>)

  /** The `remove` action on the stored file: no profiles, unknown id (no
      write), or the first record with the id and the filtered list. */
  function PlanRemove(file: Option<seq<Connection>>, id: int): (r: RemoveOutcome)
    ensures r == NothingToRemove <==> LoadConnections(file) == None
    ensures r.RemoveMissing? <==> LoadConnections(file) != None && !HasId(file.value, id)
    ensures r.RemoveMissing? ==> r.missing == id
    ensures r.Removed? ==> file.Some? && r.remaining == Without(file.value, id)
    ensures r.Removed? ==> exists i :: FindIndex(file.value, id) == Some(i) && r.removed == file.value[i]
  {
    match LoadConnections(file)
    case None => NothingToRemove
    case Some(cs) =>
      match FindIndex(cs, id)
      case None => RemoveMissing(id)
      case Some(i) => Removed(cs[i], Without(cs, id))
  }

  /** What `con <id>` does: no profiles, unknown id, or the record to launch. */
  datatype ConnectOutcome =
    | NothingToConnect
    | ConnectMissing(missing: int)
    | Launch(target: Connection)

  /** The `con` lookup: the first stored record whose id is `id`. */
  function PlanConnect(file: Option<seq<Connection>>, id: int): (r: ConnectOutcome)
    ensures r == NothingToConnect <==> LoadConnections(file) == None
    ensures r.ConnectMissing? <==> LoadConnections(file) != None && !HasId(file.value, id)
    ensures r.ConnectMissing? ==> r.missing == id
    ensures r.Launch? ==> file.Some? && r.target.id == id
    ensures r.Launch? ==> exists i :: FindIndex(file.value, id) == Some(i) && r.target == file.value[i]
  {
    match LoadConnections(file)
    case None => NothingToConnect
    case Some(cs) =>
      match FindIndex(cs, id)
      case None => ConnectMissing(id)
      case Some(i) => Launch(cs[i])
  }

  /** The connection file: the one piece of state `add` and `remove` rewrite. */
  class ConnectionFile {
    /** What `~/.eco/connection.json` holds; `None` while it does not exist. */
    var contents: Option<seq<Connection>>

    constructor (initial: Option<seq<Connection>>)
      ensures contents == initial
    {
      contents := initial;
    }

    /** `loadConnections`, reading the current file. */
    method Load() returns (r: Option<seq<Connection>>)
      ensures r == LoadConnections(contents)
    {
      if contents.None? {
        return None;
      }
      r := contents;
      if |r.value| == 0 {
        r := None;
      }
    }

    /** The store half of `add`: read the list (an empty one when the file
        is missing), push the new record with id = length, write it all back. */
    method Add(d: Draft) returns (added: Connection)
      modifies this
      ensures added == WithId(d, |old(contents).GetOr([])|)
      ensures contents == Some(old(contents).GetOr([]) + [added])
    {
      var connections: seq<Connection> := [];
      if contents.Some? {
        connections := contents.value;
      }
      added := WithId(d, |connections|);
      connections := connections + [added];
      contents := Some(connections);
    }

    /** `remove <id>`: writes the filtered list only when the id is found. */
    method Remove(id: int) returns (outcome: RemoveOutcome)
      modifies this
      ensures outcome == PlanRemove(old(contents), id)
      ensures outcome.Removed? ==> contents == Some(outcome.remaining)
      ensures !outcome.Removed? ==> contents == old(contents)
      ensures contents == AfterRemove(old(contents), id)
    {
      var connections := Load();
      if connections.None? {
        return NothingToRemove;
      }
      var found := FindIndex(connections.value, id);
      if found.None? {
        return RemoveMissing(id);
      }
      var newConnections := Without(connections.value, id);
      contents := Some(newConnections);
      outcome := Removed(connections.value[found.value], newConnections);
    }

    /** `con <id>`: reads the file and picks the record to launch. */
    method Connect(id: int) returns (outcome: ConnectOutcome)
      ensures outcome == PlanConnect(contents, id)
    {
      var connections := Load();
      if connections.None? {
        return NothingToConnect;
      }
      var found := FindIndex(connections.value, id);
      if found.None? {
        return ConnectMissing(id);
      }
      outcome := Launch(connections.value[found.value]);
    }
  }

  /** The file after `remove <id>`, whatever the outcome. */
  function AfterRemove(file: Option<seq<Connection>>, id: int): Option<seq<Connection>>
  {
    match PlanRemove(file, id)
    case Removed(_, remaining) => Some(remaining)
    case _ => file
  }

  // ---------------------------------------------------------------------
  // Properties of the store operations

  /** `load` cannot tell a missing file from an empty list. */
  lemma LoadMissingIsLoadEmpty()
    ensures LoadConnections(None) == LoadConnections(Some([])) == None
  {
  }

  /** Whatever `add` wrote, the next `load` returns it: one more record than
      before, the new one last with id = old length. */
  lemma LoadAfterAdd(file: Option<seq<Connection>>, d: Draft)
    ensures var before := file.GetOr([]);
            LoadConnections(Some(WithAdded(before, d))) == Some(before + [WithId(d, |before|)])
  {
  }

  /** `remove` with an id no record has changes nothing on disk. */
  lemma RemoveUnknownKeepsFile(file: Option<seq<Connection>>, id: int)
    requires file.Some? ==> !HasId(file.value, id)
    ensures AfterRemove(file, id) == file
    ensures PlanRemove(file, id) != NothingToRemove ==> PlanRemove(file, id) == RemoveMissing(id)
  {
  }

  /** `remove` with an id that some record has: every record with that id
      is gone, every other record survives, and the removed one reported is
      the first match. */
  lemma RemoveKnownId(cs: seq<Connection>, id: int)
    requires HasId(cs, id)
    ensures PlanRemove(Some(cs), id).Removed?
    ensures var r := PlanRemove(Some(cs), id);
            && AfterRemove(Some(cs), id) == Some(r.remaining)
            && !HasId(r.remaining, id)
            && (forall c :: c in r.remaining <==> c in cs && c.id != id)
            && r.removed.id == id && r.removed in cs
  {
    var r := PlanRemove(Some(cs), id);
    assert forall j :: 0 <= j < |r.remaining| ==> r.remaining[j] in r.remaining;
  }

  /** `filter` keeps order: filtering a concatenation is concatenating the
      filtered halves. */
  lemma {:induction false} WithoutAppend(a: seq<Connection>, b: seq<Connection>, id: int)
    ensures Without(a + b, id) == Without(a, id) + Without(b, id)
  {
    if a == [] {
      assert a + b == b;
    } else {
      WithoutAppend(a[1..], b, id);
      assert (a + b)[0] == a[0];
      assert (a + b)[1..] == a[1..] + b;
      var head := if a[0].id != id then [a[0]] else [];
      assert head + (Without(a[1..], id) + Without(b, id)) == (head + Without(a[1..], id)) + Without(b, id);
    }
  }

  /** `remove` drops exactly the records with the id: what survives and what
      is dropped together make up the original list, as a multiset. */
  lemma {:induction false} WithoutAndMatchingPartition(cs: seq<Connection>, id: int)
    ensures multiset(Without(cs, id)) + multiset(Matching(cs, id)) == multiset(cs)
    ensures forall c :: c in Matching(cs, id) ==> c.id == id
  {
    if cs != [] {
      WithoutAndMatchingPartition(cs[1..], id);
      assert cs == [cs[0]] + cs[1..];
    }
  }

  /** Ids equal positions: what a store built by `add` alone looks like. */
  ghost predicate Positional(cs: seq<Connection>) {
    forall i :: 0 <= i < |cs| ==> cs[i].id == i
  }

  /** No two stored records share an id. */
  predicate UniqueIds(cs: seq<Connection>) {
    forall i, j :: 0 <= i < j < |cs| ==> cs[i].id != cs[j].id
  }

  /** Adding keeps ids positional, so a store only ever added to has unique ids. */
  lemma AddKeepsPositional(cs: seq<Connection>, d: Draft)
    requires Positional(cs)
    ensures Positional(WithAdded(cs, d)) && UniqueIds(WithAdded(cs, d))
  {
  }

  /** In a positional store, removing id `k` cuts out exactly position `k`. */
  lemma RemovePositional(cs: seq<Connection>, k: int)
    requires Positional(cs) && 0 <= k < |cs|
    ensures Without(cs, k) == cs[..k] + cs[k + 1..]
  {
    WithoutOnlyMatch(cs, k, k);
  }

  /** When the only record with `id` sits at position `k`, filtering cuts out
      exactly that position. */
  lemma {:induction false} WithoutOnlyMatch(cs: seq<Connection>, k: int, id: int)
    requires 0 <= k < |cs| && cs[k].id == id
    requires forall j :: 0 <= j < |cs| && j != k ==> cs[j].id != id
    ensures Without(cs, id) == cs[..k] + cs[k + 1..]
  {
    var tail := cs[1..];
    if k == 0 {
      assert !HasId(tail, id) by {
        forall j | 0 <= j < |tail| ensures tail[j].id != id {
          assert tail[j] == cs[j + 1];
        }
      }
      WithoutUnmatched(tail, id);
    } else {
      assert forall j :: 0 <= j < |tail| && j != k - 1 ==> tail[j].id != id by {
        forall j | 0 <= j < |tail| && j != k - 1 ensures tail[j].id != id {
          assert tail[j] == cs[j + 1];
        }
      }
      WithoutOnlyMatch(tail, k - 1, id);
      assert [cs[0]] + (tail[..k - 1] + tail[k..]) == cs[..k] + cs[k + 1..];
    }
  }

  /** The id collision: in a store built by `add` alone, removing any record
      but the last and then adding one gives the new record the id of the
      last survivor. */
  lemma RemoveThenAddCollides(cs: seq<Connection>, k: int, d: Draft)
    requires Positional(cs) && 0 <= k < |cs| - 1
    ensures var after := WithAdded(Without(cs, k), d);
            && |after| == |cs|
            && after[|cs| - 2].id == after[|cs| - 1].id == |cs| - 1
            && !UniqueIds(after)
  {
    RemovePositional(cs, k);
    var rest := Without(cs, k);
    assert rest[|cs| - 2] == cs[|cs| - 1];
  }

  /** Removing the LAST record of such a store and adding one is the only
      removal that does not collide: the store stays positional. */
  lemma RemoveLastThenAddIsPositional(cs: seq<Connection>, d: Draft)
    requires Positional(cs) && |cs| >= 1
    ensures Positional(WithAdded(Without(cs, |cs| - 1), d))
  {
    RemovePositional(cs, |cs| - 1);
  }

  /** Removal does not renumber: from ids 0, 1, 2, removing 0 leaves the
      records with ids 1 and 2, in that order. */
  lemma RemoveDoesNotRenumber(c0: Connection, c1: Connection, c2: Connection)
    requires c0.id == 0 && c1.id == 1 && c2.id == 2
    ensures AfterRemove(Some([c0, c1, c2]), 0) == Some([c1, c2])
  {
    var cs := [c0, c1, c2];
    assert Positional(cs);
    RemovePositional(cs, 0);
    assert cs[..0] + cs[1..] == [c1, c2];
  }

  /** A run from an empty store: `add` gives id 0, `remove 0` writes an
      empty list, and `con 0` then finds no profiles at all. */
  method EndToEnd(pem: string)
  {
    var file := new ConnectionFile(None);
    var added := file.Add(Draft("box1", "", pem, "10.0.0.1"));
    assert [] + [added] == [added];
    assert added.id == 0 && file.contents == Some([added]);
    var removed := file.Remove(0);
    assert removed.Removed? && file.contents == Some([]);
    var con := file.Connect(0);
    assert con == NothingToConnect;
  }
}
