/** Vote documents and the order-preserving flattening the vote reader performs. */
module Votes {
  datatype Option<T> = None | Some(value: T)

  /** Value of a vote's "timestamp" field: the store's server-side sentinel on the
      remote path, an opaque client clock reading on the session-local path. */
  datatype Timestamp = ServerTimestamp | ClientClock(reading: int)

  /** One vote document. A field is None when the document lacks that key, which can
      happen for documents streamed back from the remote collection. */
  datatype VoteRecord = VoteRecord(
    name: Option<string>,
    properties: Option<seq<string>>,
    wishes: Option<seq<string>>,
    insider: Option<string>,
    timestamp: Option<Timestamp>)

  /** The record a guest submission is saved as: every key present. */
  function NewVote(name: string, properties: seq<string>, wishes: seq<string>,
                   insider: string, ts: Timestamp): (d: VoteRecord)
    ensures d.name == Some(name) && d.timestamp == Some(ts)
    ensures PropertiesOf(d) == properties && WishesOf(d) == wishes
    ensures InsiderOf(d) == if insider == "" then [] else [insider]
  {
    VoteRecord(Some(name), Some(properties), Some(wishes), Some(insider), Some(ts))
  }

  /** `d.get("properties", [])` */
  function PropertiesOf(d: VoteRecord): (r: seq<string>)
    ensures d.properties == Some(r) || (d.properties == None && r == [])
  {
    if d.properties.Some? then d.properties.value else []
  }

  /** `d.get("wishes", [])` */
  function WishesOf(d: VoteRecord): (r: seq<string>)
    ensures d.wishes == Some(r) || (d.wishes == None && r == [])
  {
    if d.wishes.Some? then d.wishes.value else []
  }

  /** What one record adds to the insider notes: its "insider" value when it is
      present and truthy (a non-empty string), nothing otherwise. */
  function InsiderOf(d: VoteRecord): (r: seq<string>)
    ensures |r| <= 1
    ensures r != [] <==> d.insider.Some? && d.insider.value != ""
    ensures r != [] ==> d.insider == Some(r[0])
  {
    if d.insider.Some? && d.insider.value != "" then [d.insider.value] else []
  }

  /** Concatenation, in record order, of what `f` extracts from each record. */
  function FlatMap(rs: seq<VoteRecord>, f: VoteRecord -> seq<string>): (r: seq<string>)
    ensures forall i, x :: 0 <= i < |rs| && x in f(rs[i]) ==> x in r
    ensures forall x :: x in r ==> exists i :: 0 <= i < |rs| && x in f(rs[i])
  {
    if rs == [] then [] else f(rs[0]) + FlatMap(rs[1..], f)
  }

  /** Every property of every vote, in vote order (`all_props`). */
  function AllProperties(rs: seq<VoteRecord>): (r: seq<string>)
    ensures forall t :: t in r <==> exists i :: 0 <= i < |rs| && t in PropertiesOf(rs[i])
  {
    FlatMap(rs, PropertiesOf)
  }

  /** Every wish of every vote, in vote order (`all_wishes`). */
  function AllWishes(rs: seq<VoteRecord>): (r: seq<string>)
    ensures forall t :: t in r <==> exists i :: 0 <= i < |rs| && t in WishesOf(rs[i])
  {
    FlatMap(rs, WishesOf)
  }

  /** The votes' non-empty insider notes, in vote order (`all_insider`). */
  function Insiders(rs: seq<VoteRecord>): (r: seq<string>)
    ensures forall t :: t in r <==> exists i :: 0 <= i < |rs| && t in InsiderOf(rs[i])
  {
    FlatMap(rs, InsiderOf)
  }

  /** Flattening distributes over concatenation of record lists. */
  lemma {:induction false} FlatMapAppend(a: seq<VoteRecord>, b: seq<VoteRecord>, f: VoteRecord -> seq<string>)
    ensures FlatMap(a + b, f) == FlatMap(a, f) + FlatMap(b, f)
  {
    if a != [] {
      assert (a + b)[1..] == a[1..] + b;
      FlatMapAppend(a[1..], b, f);
    } else {
      assert a + b == b;
    }
  }

  /** Reading one more record extends the accumulated result by exactly that
      record's contribution. */
  lemma FlatMapSnoc(rs: seq<VoteRecord>, d: VoteRecord, f: VoteRecord -> seq<string>)
    ensures FlatMap(rs + [d], f) == FlatMap(rs, f) + f(d)
  {
    FlatMapAppend(rs, [d], f);
    assert FlatMap([d], f) == f(d) + FlatMap([], f);
  }

  /** A read that stops after the first k records yields a prefix of the full read. */
  lemma PartialReadIsPrefix(rs: seq<VoteRecord>, k: nat, f: VoteRecord -> seq<string>)
    requires k <= |rs|
    ensures FlatMap(rs, f) == FlatMap(rs[..k], f) + FlatMap(rs[k..], f)
    ensures |FlatMap(rs[..k], f)| <= |FlatMap(rs, f)|
  {
    assert rs == rs[..k] + rs[k..];
    FlatMapAppend(rs[..k], rs[k..], f);
  }

  /** Record i's contribution sits, contiguously, between those of the records
      before it and those after it. */
  lemma FlatMapAt(rs: seq<VoteRecord>, i: nat, f: VoteRecord -> seq<string>)
    requires i < |rs|
    ensures FlatMap(rs, f) == FlatMap(rs[..i], f) + f(rs[i]) + FlatMap(rs[i + 1..], f)
  {
    PartialReadIsPrefix(rs, i, f);
    assert rs[i..][0] == rs[i] && rs[i..][1..] == rs[i + 1..];
  }

  /** A record placed at position pos of the list contributes exactly its own tags,
      between those of the records before and after it. */
  lemma InsertedVoteIsRead(rs: seq<VoteRecord>, pos: nat, d: VoteRecord, f: VoteRecord -> seq<string>)
    requires pos <= |rs|
    ensures FlatMap(rs[..pos] + [d] + rs[pos..], f) == FlatMap(rs[..pos], f) + f(d) + FlatMap(rs[pos..], f)
  {
    FlatMapAppend(rs[..pos] + [d], rs[pos..], f);
    FlatMapSnoc(rs[..pos], d, f);
  }

  /** The insider notes are the non-empty "insider" values of the records, each one
      taken from some record, and every record's non-empty note is among them. */
  lemma {:induction false} InsidersSpec(rs: seq<VoteRecord>)
    ensures forall s :: s in Insiders(rs) ==> s != "" && exists i :: 0 <= i < |rs| && rs[i].insider == Some(s)
    ensures forall i :: 0 <= i < |rs| && rs[i].insider.Some? && rs[i].insider.value != "" ==>
              rs[i].insider.value in Insiders(rs)
    ensures |Insiders(rs)| <= |rs|
  {
    if rs != [] {
      InsidersSpec(rs[1..]);
      assert Insiders(rs) == InsiderOf(rs[0]) + Insiders(rs[1..]);
      forall s | s in Insiders(rs)
        ensures s != "" && exists i :: 0 <= i < |rs| && rs[i].insider == Some(s)
      {
        if s in InsiderOf(rs[0]) {
          assert rs[0].insider == Some(s);
        } else {
          assert s in Insiders(rs[1..]);
          var j :| 0 <= j < |rs[1..]| && rs[1..][j].insider == Some(s);
          assert rs[j + 1].insider == Some(s);
        }
      }
      forall i | 0 <= i < |rs| && rs[i].insider.Some? && rs[i].insider.value != ""
        ensures rs[i].insider.value in Insiders(rs)
      {
        if i > 0 {
          assert rs[1..][i - 1] == rs[i];
        }
      }
    }
  }

  /** Reading one more record extends each of the three results by that record's part. */
  lemma ReadOneMore(rs: seq<VoteRecord>, d: VoteRecord)
    ensures AllProperties(rs + [d]) == AllProperties(rs) + PropertiesOf(d)
    ensures AllWishes(rs + [d]) == AllWishes(rs) + WishesOf(d)
    ensures Insiders(rs + [d]) == Insiders(rs) + InsiderOf(d)
  {
    FlatMapSnoc(rs, d, PropertiesOf);
    FlatMapSnoc(rs, d, WishesOf);
    FlatMapSnoc(rs, d, InsiderOf);
  }

  /** What a saved vote contributes when it is read back: exactly its properties,
      its wishes and, if non-empty, its insider note, after everything read before. */
  lemma SavedVoteIsRead(rs: seq<VoteRecord>, name: string, properties: seq<string>,
                        wishes: seq<string>, insider: string, ts: Timestamp)
    ensures AllProperties(rs + [NewVote(name, properties, wishes, insider, ts)]) == AllProperties(rs) + properties
    ensures AllWishes(rs + [NewVote(name, properties, wishes, insider, ts)]) == AllWishes(rs) + wishes
    ensures Insiders(rs + [NewVote(name, properties, wishes, insider, ts)]) ==
              Insiders(rs) + (if insider == "" then [] else [insider])
  {
    ReadOneMore(rs, NewVote(name, properties, wishes, insider, ts));
  }
}
