/** The featurization step of the contact-embedding tool: a sequence of
    residue contacts, each observed at one trajectory frame, becomes a dense
    binary frame-by-pair matrix written as tab-separated text, one line per
    frame and one column per residue pair. */
module ContactEmbedding {
  import opened Delimited

  /** One observation as `res_contacts` returns it:
      the frame and the two residue identifiers, in the record's order. */
  datatype ResidueContact = ResidueContact(frame: int, residueA: string, residueB: string)

  /** The insertion-ordered mapping from pair key to the frames it was seen in:
      `keys` is the dictionary's key order, `frames` its contents. */
  datatype ContactDict = ContactDict(keys: seq<string>, frames: map<string, set<int>>) {
    /** Every key once, and exactly the keys of the mapping. */
    ghost predicate Valid() {
      (forall i, j :: 0 <= i < j < |keys| ==> keys[i] != keys[j]) &&
      (forall k :: k in frames <==> k in keys)
    }
  }

  const TAB: char := '\t'
  const NEWLINE: char := '\n'

  /** The tag that stands for every interaction type. */
  const ALL_TAG: string := "all"

  /** The interaction types that `all` stands for, in the tool's order. */
  const ALL_INTERACTION_TYPES: seq<string> :=
    ["sb", "pc", "ps", "ts", "vdw", "hb", "lhb", "hbbb", "hbsb",
     "hbss", "wb", "wb2", "hls", "hlb", "lwb", "lwb2"]

  // ---------------------------------------------------------------------
  // Interaction-type expansion
  // ---------------------------------------------------------------------

  /** The requested tags after expansion: any occurrence of `all` replaces the
      whole request by the sixteen known tags; otherwise the request stands. */
  function ExpandInteractionTypes(itypes: seq<string>): (r: seq<string>)
    ensures ALL_TAG in itypes ==> r == ALL_INTERACTION_TYPES && |r| == 16
    ensures ALL_TAG !in itypes ==> r == itypes
    ensures ALL_TAG !in r
  {
    if ALL_TAG in itypes then ALL_INTERACTION_TYPES else itypes
  }

  /** Expanding twice is expanding once. */
  lemma ExpandIdempotent(itypes: seq<string>)
    ensures ExpandInteractionTypes(ExpandInteractionTypes(itypes)) == ExpandInteractionTypes(itypes)
  {
  }

  /** The sixteen tags of `all` are pairwise distinct. */
  lemma AllInteractionTypesDistinct()
    ensures forall i, j :: 0 <= i < j < |ALL_INTERACTION_TYPES| ==>
      ALL_INTERACTION_TYPES[i] != ALL_INTERACTION_TYPES[j]
  {
  }

  // ---------------------------------------------------------------------
  // Pair keys
  // ---------------------------------------------------------------------

  /** The column identity of a contact: residue A, a dash, residue B,
      in the record's field order. */
  function PairKey(c: ResidueContact): string {
    c.residueA + "-" + c.residueB
  }

  /** The key is a plain two-field dash join. */
  lemma PairKeyIsJoin(c: ResidueContact)
    ensures PairKey(c) == Join([c.residueA, c.residueB], '-')
  {
  }

  /** An instance of `PairKeySwapDiffers`: swapping A10 and B20 gives another column. */
  lemma PairKeyKeepsFieldOrder()
    ensures PairKey(ResidueContact(0, "A10", "B20")) != PairKey(ResidueContact(0, "B20", "A10"))
  {
    PairKeySwapDiffers(0, "A10", "B20");
  }

  /** Swapping two distinct dash-free residues always gives another column. */
  lemma PairKeySwapDiffers(f: int, a: string, b: string)
    requires a != b && '-' !in a && '-' !in b
    ensures PairKey(ResidueContact(f, a, b)) != PairKey(ResidueContact(f, b, a))
  {
    if PairKey(ResidueContact(f, a, b)) == PairKey(ResidueContact(f, b, a)) {
      PairKeyInjective(ResidueContact(f, a, b), ResidueContact(f, b, a));
    }
  }

  /** Residue names that contain a dash can share a column: ("A-B", "C") and
      ("A", "B-C") both have key "A-B-C". */
  lemma PairKeyCollision(f: int, g: int)
    ensures PairKey(ResidueContact(f, "A-B", "C")) == PairKey(ResidueContact(g, "A", "B-C"))
  {
  }

  /** When residue A holds no dash, the key determines both residues. */
  lemma PairKeyInjective(c: ResidueContact, d: ResidueContact)
    requires '-' !in c.residueA && '-' !in d.residueA
    requires PairKey(c) == PairKey(d)
    ensures c.residueA == d.residueA && c.residueB == d.residueB
  {
    var key := PairKey(c);
    FirstIndexAfter(c.residueA, '-', c.residueB);
    FirstIndexAfter(d.residueA, '-', d.residueB);
    assert key[..|c.residueA|] == c.residueA;
    assert key[..|d.residueA|] == d.residueA;
    assert key[|c.residueA| + 1..] == c.residueB;
    assert key[|d.residueA| + 1..] == d.residueB;
  }

  // ---------------------------------------------------------------------
  // Aggregation: specification
  // ---------------------------------------------------------------------

  /** The keys in the order a scan of `records` first meets them, each once. */
  function KeyOrder(records: seq<ResidueContact>): (keys: seq<string>)
    ensures forall i, j :: 0 <= i < j < |keys| ==> keys[i] != keys[j]
  {
    if |records| == 0 then []
    else
      var init := records[..|records| - 1];
      var last := records[|records| - 1];
      var keys := KeyOrder(init);
      if PairKey(last) in keys then keys else keys + [PairKey(last)]
  }

  /** A key is in the key order exactly when some record has it. */
  lemma {:induction false} KeyOrderMembers(records: seq<ResidueContact>)
    ensures forall k :: k in KeyOrder(records) <==> exists i :: 0 <= i < |records| && PairKey(records[i]) == k
  {
    if |records| > 0 {
      var init := records[..|records| - 1];
      KeyOrderMembers(init);
      assert forall i :: 0 <= i < |init| ==> init[i] == records[i];
      assert PairKey(records[|records| - 1]) in KeyOrder(records);
    }
  }

  /** The frames of the records whose key is `key`, gathered in scan order. */
  function FramesOf(records: seq<ResidueContact>, key: string): set<int> {
    if |records| == 0 then {}
    else
      var last := records[|records| - 1];
      FramesOf(records[..|records| - 1], key) + (if PairKey(last) == key then {last.frame} else {})
  }

  /** A frame is in a key's set exactly when some record has that key and that frame. */
  lemma {:induction false} FramesOfMembers(records: seq<ResidueContact>, key: string)
    ensures forall f :: f in FramesOf(records, key) <==>
      exists i :: 0 <= i < |records| && PairKey(records[i]) == key && records[i].frame == f
  {
    if |records| > 0 {
      var init, last := records[..|records| - 1], records[|records| - 1];
      FramesOfMembers(init, key);
      assert records == init + [last];
      FramesOfSnoc(init, last, key);
      assert forall i :: 0 <= i < |init| ==> init[i] == records[i];
    }
  }

  /** A key's set is non-empty exactly when the key is among the columns. */
  lemma {:induction false} FramesOfNonEmptyIffKey(records: seq<ResidueContact>, key: string)
    ensures FramesOf(records, key) != {} <==> key in KeyOrder(records)
  {
    if |records| > 0 {
      var init := records[..|records| - 1];
      var last := records[|records| - 1];
      FramesOfNonEmptyIffKey(init, key);
      if PairKey(last) == key {
        assert last.frame in FramesOf(records, key);
      }
    }
  }

  /** One `contact_dict[key].add(frame)` on a `defaultdict(set)`: a key met
      for the first time joins the end of the key order with an empty set,
      then the record's frame joins its key's set. */
  function AddContact(d: ContactDict, r: ResidueContact): (d': ContactDict)
    ensures d.Valid() ==> d'.Valid()
  {
    var key := PairKey(r);
    var current := if key in d.frames then d.frames[key] else {};
    ContactDict(if key in d.frames then d.keys else d.keys + [key], d.frames[key := current + {r.frame}])
  }

  /** The mapping after the aggregation loop has run over all of `records`. */
  function Aggregation(records: seq<ResidueContact>): (d: ContactDict)
    ensures d.Valid()
  {
    if |records| == 0 then ContactDict([], map[])
    else AddContact(Aggregation(records[..|records| - 1]), records[|records| - 1])
  }

  /** The loop's mapping meets its specification: the keys are in first-seen
      order, and each key's set is exactly the frames of the records with that
      key, never empty. */
  lemma {:induction false} AggregationMatchesSpec(records: seq<ResidueContact>)
    ensures var d := Aggregation(records);
      d.keys == KeyOrder(records) &&
      forall k :: k in d.frames ==> d.frames[k] == FramesOf(records, k) && d.frames[k] != {}
  {
    if |records| > 0 {
      var init := records[..|records| - 1];
      AggregationMatchesSpec(init);
      FramesOfNonEmptyIffKey(init, PairKey(records[|records| - 1]));
    }
  }

  /** One more record adds its frame to its own key's set and leaves every
      other key's set as it was. This is the recursive case of `FramesOf`
      written for `records + [r]`; `FramesOfMembers` uses it. */
  lemma FramesOfSnoc(records: seq<ResidueContact>, r: ResidueContact, key: string)
    ensures FramesOf(records + [r], key) ==
      FramesOf(records, key) + (if PairKey(r) == key then {r.frame} else {})
  {
  }

  /** One more record appends its key to the key order if the key is new, and
      leaves the key order alone otherwise. This is the recursive case of
      `KeyOrder` written for `records + [r]`; `KeyOrderPrefix` uses it. */
  lemma KeyOrderSnoc(records: seq<ResidueContact>, r: ResidueContact)
    ensures KeyOrder(records + [r]) ==
      if PairKey(r) in KeyOrder(records) then KeyOrder(records) else KeyOrder(records) + [PairKey(r)]
  {
  }

  /** Running the loop over one more record is one more `AddContact`. */
  lemma AggregationSnoc(records: seq<ResidueContact>, r: ResidueContact)
    ensures Aggregation(records + [r]) == AddContact(Aggregation(records), r)
  {
  }

  /** The loop's step from `n` to `n + 1` records, as the loop performs it:
      an absent key is first given an empty set, then the frame is added. */
  lemma AggregationStep(records: seq<ResidueContact>, n: nat)
    requires n < |records|
    ensures var d := Aggregation(records[..n]);
      var r := records[n];
      var key := PairKey(r);
      var withKey := if key in d.frames then d.frames else d.frames[key := {}];
      Aggregation(records[..n + 1]) ==
        ContactDict(if key in d.frames then d.keys else d.keys + [key], withKey[key := withKey[key] + {r.frame}])
  {
    assert records[..n + 1] == records[..n] + [records[n]];
    AggregationSnoc(records[..n], records[n]);
    var d := Aggregation(records[..n]);
    var key := PairKey(records[n]);
    var withKey := if key in d.frames then d.frames else d.frames[key := {}];
    assert withKey[key := withKey[key] + {records[n].frame}] == AddContact(d, records[n]).frames;
  }

  /** Adding a frame its key's set already holds leaves the mapping as it is. */
  lemma AddContactPresent(d: ContactDict, r: ResidueContact)
    requires PairKey(r) in d.frames && r.frame in d.frames[PairKey(r)]
    ensures AddContact(d, r) == d
  {
    var key := PairKey(r);
    assert d.frames[key] + {r.frame} == d.frames[key];
    assert d.frames[key := d.frames[key]] == d.frames;
  }

  /** A record already present changes the mapping not at all: neither the
      key order nor any frame set. */
  lemma DuplicateRecordAddsNothing(records: seq<ResidueContact>, r: ResidueContact)
    requires r in records
    ensures Aggregation(records + [r]) == Aggregation(records)
  {
    var i :| 0 <= i < |records| && records[i] == r;
    var key := PairKey(r);
    var d := Aggregation(records);
    AggregationMatchesSpec(records);
    FramesOfMembers(records, key);
    assert r.frame in FramesOf(records, key);
    FramesOfNonEmptyIffKey(records, key);
    assert key in d.keys && key in d.frames && r.frame in d.frames[key];
    AddContactPresent(d, r);
    AggregationSnoc(records, r);
  }

  /** Later records never reorder or drop the keys already met: the key order
      of a prefix is a prefix of the key order of the whole. */
  lemma {:induction false} KeyOrderPrefix(records: seq<ResidueContact>, more: seq<ResidueContact>)
    ensures KeyOrder(records) <= KeyOrder(records + more)
    decreases |more|
  {
    if |more| > 0 {
      var init := records + more[..|more| - 1];
      KeyOrderPrefix(records, more[..|more| - 1]);
      assert records + more == init + [more[|more| - 1]];
      KeyOrderSnoc(init, more[|more| - 1]);
    } else {
      assert records + more == records;
    }
  }

  /** Column order is first-occurrence order: whenever a record carries the key
      of column `b`, the key of every earlier column `a` was met strictly before. */
  lemma {:induction false} KeyOrderFollowsFirstOccurrence(records: seq<ResidueContact>, a: nat, b: nat, q: nat)
    requires a < b < |KeyOrder(records)|
    requires q < |records| && PairKey(records[q]) == KeyOrder(records)[b]
    ensures exists p :: 0 <= p < q && PairKey(records[p]) == KeyOrder(records)[a]
  {
    var keys := KeyOrder(records);
    var init := records[..|records| - 1];
    var last := records[|records| - 1];
    var prev := KeyOrder(init);
    KeyOrderMembers(init);
    assert forall i :: 0 <= i < |init| ==> init[i] == records[i];
    if PairKey(last) in prev {
      assert keys == prev;
      if q < |init| {
        KeyOrderFollowsFirstOccurrence(init, a, b, q);
      } else {
        var q' :| 0 <= q' < |init| && PairKey(init[q']) == prev[b];
        KeyOrderFollowsFirstOccurrence(init, a, b, q');
      }
    } else {
      assert keys == prev + [PairKey(last)];
      if b < |prev| {
        assert keys[b] == prev[b] && prev[b] in prev;
        KeyOrderFollowsFirstOccurrence(init, a, b, q);
      } else {
        assert keys[a] == prev[a] && prev[a] in prev;
        var p :| 0 <= p < |init| && PairKey(init[p]) == prev[a];
        assert PairKey(records[p]) == keys[a];
      }
    }
  }

  // ---------------------------------------------------------------------
  // Aggregation: the loop
  // ---------------------------------------------------------------------

  /** One pass over the records, adding each record's frame to the set of its
      pair key; a key met for the first time gets an empty set first, as a
      `defaultdict(set)` does, and joins the end of the key order. */
  method Aggregate(records: seq<ResidueContact>) returns (d: ContactDict)
    ensures d == Aggregation(records)
    ensures d.Valid() && d.keys == KeyOrder(records)
    ensures forall k :: k in d.frames ==> d.frames[k] == FramesOf(records, k) && d.frames[k] != {}
  {
    var keys: seq<string> := [];
    var frames: map<string, set<int>> := map[];
    for n := 0 to |records|
      invariant ContactDict(keys, frames) == Aggregation(records[..n])
    {
      var r := records[n];
      var key := PairKey(r);
      AggregationStep(records, n);
      if key !in frames {
        keys := keys + [key];
        frames := frames[key := {}];
      }
      frames := frames[key := frames[key] + {r.frame}];
    }
    assert records[..|records|] == records;
    d := ContactDict(keys, frames);
    AggregationMatchesSpec(records);
  }

  // ---------------------------------------------------------------------
  // Row emission
  // ---------------------------------------------------------------------

  /** The fields of one frame's row: for each key in key order, "1" if the
      frame is in the key's set and "0" otherwise. */
  function Row(frame: int, d: ContactDict): (fields: seq<string>)
    requires d.Valid()
    ensures |fields| == |d.keys|
    ensures forall j :: 0 <= j < |fields| ==>
      (fields[j] == "1" <==> frame in d.frames[d.keys[j]]) &&
      (fields[j] == "1" || fields[j] == "0")
  {
    seq(|d.keys|, j requires 0 <= j < |d.keys| =>
      if frame in d.frames[d.keys[j]] then "1" else "0")
  }

  /** One output line: the row's fields joined by tabs, then a newline. */
  function Line(frame: int, d: ContactDict): string
    requires d.Valid()
  {
    Join(Row(frame, d), TAB) + [NEWLINE]
  }

  /** The line is newline-terminated, holds no other newline, and has one
      character per field plus a tab between neighbouring fields; with no
      keys it is just the newline. */
  lemma LineShape(frame: int, d: ContactDict)
    requires d.Valid()
    ensures var line := Line(frame, d);
      |line| == (if |d.keys| == 0 then 1 else 2 * |d.keys|) &&
      line[|line| - 1] == NEWLINE &&
      NEWLINE !in line[..|line| - 1]
  {
    var fields := Row(frame, d);
    JoinLength(fields, TAB);
    JoinAddsOnlySeparators(fields, TAB, NEWLINE);
    var line := Line(frame, d);
    assert line[..|line| - 1] == Join(fields, TAB);
  }

  /** Reading a line back by splitting on tabs recovers the row exactly, so the
      line has one field per key; with no keys it reads as one empty field. */
  lemma LineReadsBack(frame: int, d: ContactDict)
    requires d.Valid()
    ensures var line := Line(frame, d);
      Split(line[..|line| - 1], TAB) == (if |d.keys| == 0 then [""] else Row(frame, d))
  {
    var fields := Row(frame, d);
    var line := Line(frame, d);
    assert line[..|line| - 1] == Join(fields, TAB);
    if |fields| > 0 {
      SplitJoin(fields, TAB);
    }
  }

  /** Presence: in the matrix for `records`, the cell of frame `f` and column
      `j` is "1" exactly when some record has that frame and that column's key. */
  lemma CellIsOneIffObserved(records: seq<ResidueContact>, f: int, j: nat)
    requires j < |KeyOrder(records)|
    ensures var d := Aggregation(records);
      j < |Row(f, d)| &&
      (Row(f, d)[j] == "1" <==>
        exists i :: 0 <= i < |records| && records[i].frame == f && PairKey(records[i]) == KeyOrder(records)[j])
  {
    var d := Aggregation(records);
    AggregationMatchesSpec(records);
    var key := d.keys[j];
    assert d.frames[key] == FramesOf(records, key);
    FramesOfMembers(records, key);
  }

  /** Two contacts of one pair, at frames 0 and 1, over three frames: one
      column that reads 1, 1, 0. */
  lemma OnePairExample()
    ensures var records := [ResidueContact(0, "A10", "B20"), ResidueContact(1, "A10", "B20")];
      var d := Aggregation(records);
      d.keys == ["A10-B20"] &&
      Line(0, d) == "1\n" && Line(1, d) == "1\n" && Line(2, d) == "0\n"
  {
    var first, second := ResidueContact(0, "A10", "B20"), ResidueContact(1, "A10", "B20");
    var key := "A10-B20";
    assert PairKey(first) == key && PairKey(second) == key;
    AggregationSnoc([], first);
    var d0 := Aggregation([]);
    var d1 := AddContact(d0, first);
    assert d1.frames[key] == {0};
    AggregationSnoc([first], second);
    var d := AddContact(d1, second);
    assert d.frames[key] == {0, 1};
    assert d == ContactDict([key], map[key := {0, 1}]);
  }

  /** The frame loop: one line per frame from 0 to `numFrames - 1`, in order;
      none when `numFrames` is not positive. */
  method WriteEmbedding(numFrames: int, d: ContactDict) returns (lines: seq<string>)
    requires d.Valid()
    ensures |lines| == if numFrames > 0 then numFrames else 0
    ensures forall f :: 0 <= f < |lines| ==> lines[f] == Line(f, d)
  {
    lines := [];
    var frame := 0;
    while frame < numFrames
      invariant 0 <= frame <= (if numFrames > 0 then numFrames else 0)
      invariant |lines| == frame
      invariant forall f :: 0 <= f < frame ==> lines[f] == Line(f, d)
    {
      lines := lines + [Line(frame, d)];
      frame := frame + 1;
    }
  }

  /** Featurization as a whole: aggregate the records, then write one line per
      frame, each with a "1" exactly where the frame was observed for that column. */
  method Featurize(numFrames: int, records: seq<ResidueContact>) returns (keys: seq<string>, lines: seq<string>)
    ensures keys == KeyOrder(records)
    ensures |lines| == if numFrames > 0 then numFrames else 0
    ensures forall f :: 0 <= f < |lines| ==> lines[f] == Line(f, Aggregation(records))
  {
    var d := Aggregate(records);
    keys := d.keys;
    lines := WriteEmbedding(numFrames, d);
  }
}
