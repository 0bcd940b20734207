/** The client object of dglan-api: handling of messages, one browse, and the walk over all
    shared directories that is built on it. */
module GuiClient {
  import opened Sequences
  import opened BrowseProtocol

  const MAX_BROWSE_DEPTH: nat := 20

  /** An entry as the Core sends it; an empty hash means none. */
  datatype Entry = Entry(isDir: bool, name: string, path: string, size: nat, hash: string, chunks: seq<string>)

  datatype File = File(name: string, path: string, size: nat, hash: string, chunks: seq<string>)
  datatype Request = Roots | Dir(entry: Entry)
  type Content = seq<seq<Entry>>  // the groups of a browse result
  type Listing = Request -> Content

  function Flatten(groups: Content): seq<Entry> {
    if groups == [] then [] else groups[0] + Flatten(groups[1..])
  }

  function NonEmpty(hashes: seq<string>): seq<string> {
    if hashes == [] then []
    else (if hashes[0] == "" then [] else [hashes[0]]) + NonEmpty(hashes[1..])
  }

  /** Group after group, each in its order. */
  lemma {:induction false} FlattenIs(a: Content, group: seq<Entry>, b: Content)
    ensures Flatten([]) == [] && Flatten(a + [group] + b) == Flatten(a) + group + Flatten(b)
  {
    if a == [] {
      assert (a + [group] + b)[1..] == b;
    } else {
      FlattenIs(a[1..], group, b);
      assert (a + [group] + b)[1..] == a[1..] + [group] + b;
      Assoc(a[0], Flatten(a[1..]), group);
      Assoc(a[0], Flatten(a[1..]) + group, Flatten(b));
    }
  }

  /** The entry's own hash, or the one it inherits. */
  function HashOf(e: Entry, parentHash: string): string {
    if e.hash != "" then e.hash else parentHash
  }

  function Record(e: Entry, hash: string): File {
    File(e.name, if e.path == "" then "/" else e.path, e.size, hash, NonEmpty(e.chunks))
  }

  // ----- chunks -----

  ghost predicate Increasing(at: seq<nat>) {
    forall i, j :: 0 <= i < j < |at| ==> at[i] < at[j]
  }

  ghost predicate Picks(all: seq<string>, some: seq<string>, at: seq<nat>) {
    |at| == |some| && forall i :: 0 <= i < |at| ==> at[i] < |all| && some[i] == all[at[i]] != ""
  }

  predicate NotEmpty(all: seq<string>, j: nat) {
    j < |all| && all[j] != ""
  }

  ghost predicate Covers(all: seq<string>, at: seq<nat>) {
    forall j: nat :: NotEmpty(all, j) ==> j in at
  }

  ghost predicate KeptAt(all: seq<string>, some: seq<string>, at: seq<nat>) {
    Increasing(at) && Picks(all, some, at) && Covers(all, at)
  }

  /** `some` are the entries of `all` that are not empty, in their order. */
  ghost predicate Kept(all: seq<string>, some: seq<string>) {
    exists at: seq<nat> :: KeptAt(all, some, at)
  }

  function Shifted(at: seq<nat>): seq<nat> {
    seq(|at|, i requires 0 <= i < |at| => at[i] + 1)
  }

  lemma InShifted(at: seq<nat>, j: nat)
    requires j in at
    ensures j + 1 in Shifted(at)
  {
    var k :| 0 <= k < |at| && at[k] == j;
    assert Shifted(at)[k] == j + 1;
  }

  lemma CoversShifted(all: seq<string>, rest: seq<nat>)
    requires all != [] && Covers(all[1..], rest)
    ensures forall j: nat :: NotEmpty(all, j) && j > 0 ==> j in Shifted(rest)
  {
    forall j: nat | NotEmpty(all, j) && j > 0 ensures j in Shifted(rest) {
      assert NotEmpty(all[1..], j - 1);
      InShifted(rest, j - 1);
    }
  }

  lemma PicksShifted(all: seq<string>, some: seq<string>, rest: seq<nat>)
    requires all != [] && Picks(all[1..], some, rest)
    ensures Picks(all, some, Shifted(rest))
  {
  }

  lemma KeptSkip(all: seq<string>, some: seq<string>, rest: seq<nat>)
    requires all != [] && all[0] == "" && KeptAt(all[1..], some, rest)
    ensures KeptAt(all, some, Shifted(rest))
  {
    CoversShifted(all, rest);
    PicksShifted(all, some, rest);
  }

  lemma PicksFirst(all: seq<string>, some: seq<string>, at: seq<nat>)
    requires all != [] && all[0] != "" && Picks(all, some, at)
    ensures Picks(all, [all[0]] + some, [0] + at)
  {
  }

  lemma FirstIncreases(rest: seq<nat>)
    requires Increasing(rest)
    ensures Increasing([0] + Shifted(rest))
  {
  }

  lemma FirstCovers(all: seq<string>, at: seq<nat>)
    requires forall j: nat :: NotEmpty(all, j) && j > 0 ==> j in at
    ensures Covers(all, [0] + at)
  {
  }

  lemma KeptTake(all: seq<string>, some: seq<string>, rest: seq<nat>)
    requires all != [] && all[0] != "" && KeptAt(all[1..], some, rest)
    ensures KeptAt(all, [all[0]] + some, [0] + Shifted(rest))
  {
    CoversShifted(all, rest);
    PicksShifted(all, some, rest);
    PicksFirst(all, some, Shifted(rest));
    FirstCovers(all, Shifted(rest));
    FirstIncreases(rest);
  }

  lemma {:induction false} NonEmptyAt(all: seq<string>) returns (at: seq<nat>)
    ensures KeptAt(all, NonEmpty(all), at)
  {
    if all == [] {
      at := [];
    } else {
      var rest := NonEmptyAt(all[1..]);
      if all[0] == "" {
        at := Shifted(rest);
        KeptSkip(all, NonEmpty(all[1..]), rest);
      } else {
        at := [0] + Shifted(rest);
        KeptTake(all, NonEmpty(all[1..]), rest);
      }
    }
  }

  // ----- what the walk should list -----

  /** A place in the tree of entries: the position to take at each level, from the roots on. */
  type Place = seq<nat>

  function Under(listing: Listing, e: Entry): seq<Entry> {
    Flatten(listing(Dir(e)))
  }

  /** There is an entry at that place, reached through directories. */
  predicate Exists(listing: Listing, es: seq<Entry>, place: Place)
    decreases |place|
  {
    place != [] && place[0] < |es| &&
    (|place| == 1 || (es[place[0]].isDir && Exists(listing, Under(listing, es[place[0]]), place[1..])))
  }

  function EntryAt(listing: Listing, es: seq<Entry>, place: Place): Entry
    requires Exists(listing, es, place)
    decreases |place|
  {
    var e := es[place[0]];
    if |place| == 1 then e else EntryAt(listing, Under(listing, e), place[1..])
  }

  /** The hash of the nearest entry on the way, the entry itself included, that has one. */
  function NearestHash(listing: Listing, es: seq<Entry>, place: Place, parentHash: string): string
    requires Exists(listing, es, place)
    decreases |place|
  {
    var e := es[place[0]];
    var hash := HashOf(e, parentHash);
    if |place| == 1 then hash else NearestHash(listing, Under(listing, e), place[1..], hash)
  }

  /** Every directory on the way has or inherits a hash. */
  predicate Hashed(listing: Listing, es: seq<Entry>, place: Place, parentHash: string)
    requires Exists(listing, es, place)
    decreases |place|
  {
    var e := es[place[0]];
    var hash := HashOf(e, parentHash);
    |place| == 1 || (hash != "" && Hashed(listing, Under(listing, e), place[1..], hash))
  }

  /** The files that are to be listed: not deeper than 20 levels below the roots. */
  predicate Wanted(listing: Listing, es: seq<Entry>, depth: nat, parentHash: string, place: Place) {
    && Exists(listing, es, place) && !EntryAt(listing, es, place).isDir
    && depth + |place| - 1 <= MAX_BROWSE_DEPTH
    && Hashed(listing, es, place, parentHash)
  }

  /** Preorder: by the first level at which two places differ. */
  predicate Before(a: Place, b: Place) {
    a != [] && b != [] && (a[0] < b[0] || (a[0] == b[0] && Before(a[1..], b[1..])))
  }

  // ----- what the walk lists -----

  datatype Hit = Hit(place: Place, file: File)

  function Fuel(depth: nat): nat {
    if depth > MAX_BROWSE_DEPTH then 0 else MAX_BROWSE_DEPTH + 1 - depth
  }

  function Prefixed(i: nat, hits: seq<Hit>): seq<Hit> {
    seq(|hits|, k requires 0 <= k < |hits| => Hit([i] + hits[k].place, hits[k].file))
  }

  /** _collect_files on the entry at position i. */
  function Walk(listing: Listing, i: nat, e: Entry, depth: nat, parentHash: string): seq<Hit>
    decreases Fuel(depth), 0
  {
    var hash := HashOf(e, parentHash);
    if depth > MAX_BROWSE_DEPTH then []
    else if !e.isDir then [Hit([i], Record(e, hash))]
    else if hash == "" then []
    else Prefixed(i, WalkAll(listing, Under(listing, e), 0, depth + 1, hash))
  }

  /** ... and on the entries from position i on. */
  function WalkAll(listing: Listing, es: seq<Entry>, i: nat, depth: nat, parentHash: string): seq<Hit>
    requires i <= |es|
    decreases Fuel(depth), 1, |es| - i
  {
    if i == |es| then []
    else Walk(listing, i, es[i], depth, parentHash) + WalkAll(listing, es, i + 1, depth, parentHash)
  }

  function Files(hits: seq<Hit>): seq<File> {
    seq(|hits|, k requires 0 <= k < |hits| => hits[k].file)
  }

  // ----- the two agree -----

  /** What is recorded of an entry beside the hash. */
  ghost predicate RecordOf(e: Entry, file: File) {
    && file.name == e.name && file.size == e.size && file.path == (if e.path == "" then "/" else e.path)
    && Kept(e.chunks, file.chunks)
  }

  lemma RecordIs(e: Entry, hash: string)
    ensures RecordOf(e, Record(e, hash)) && Record(e, hash).hash == hash
  {
    var at := NonEmptyAt(e.chunks);
  }

  /** What is listed stands at a wanted place and carries that entry and its nearest hash. */
  ghost predicate Right(listing: Listing, es: seq<Entry>, depth: nat, parentHash: string, h: Hit) {
    && Wanted(listing, es, depth, parentHash, h.place)
    && RecordOf(EntryAt(listing, es, h.place), h.file)
    && h.file.hash == NearestHash(listing, es, h.place, parentHash)
  }

  lemma {:induction false} WalkIsRight(listing: Listing, es: seq<Entry>, i: nat, depth: nat, parentHash: string)
    requires i < |es|
    ensures forall h :: h in Walk(listing, i, es[i], depth, parentHash) ==>
              Right(listing, es, depth, parentHash, h) && h.place[0] == i
    decreases Fuel(depth), 0
  {
    var e := es[i];
    var hash := HashOf(e, parentHash);
    RecordIs(e, hash);
    if depth <= MAX_BROWSE_DEPTH && e.isDir && hash != "" {
      var sub := Under(listing, e);
      var hits := WalkAll(listing, sub, 0, depth + 1, hash);
      WalkAllIsRight(listing, sub, 0, depth + 1, hash);
      forall h | h in Prefixed(i, hits) ensures Right(listing, es, depth, parentHash, h) && h.place[0] == i {
        var k :| 0 <= k < |hits| && h == Prefixed(i, hits)[k];
        assert hits[k] in hits && h.place[1..] == hits[k].place;
      }
    }
  }

  lemma {:induction false} WalkAllIsRight(listing: Listing, es: seq<Entry>, i: nat, depth: nat, parentHash: string)
    requires i <= |es|
    ensures forall h :: h in WalkAll(listing, es, i, depth, parentHash) ==>
              Right(listing, es, depth, parentHash, h) && h.place[0] >= i
    decreases Fuel(depth), 1, |es| - i
  {
    if i < |es| {
      WalkIsRight(listing, es, i, depth, parentHash);
      WalkAllIsRight(listing, es, i + 1, depth, parentHash);
    }
  }

  /** Something at that place is listed. */
  ghost predicate Listed(hits: seq<Hit>, place: Place) {
    exists h :: h in hits && h.place == place
  }

  lemma ListedBelow(i: nat, hits: seq<Hit>, place: Place)
    requires Listed(hits, place)
    ensures Listed(Prefixed(i, hits), [i] + place)
  {
    var h :| h in hits && h.place == place;
    var k :| 0 <= k < |hits| && hits[k] == h;
    assert Prefixed(i, hits)[k] in Prefixed(i, hits);
  }

  lemma ListedInAll(listing: Listing, es: seq<Entry>, i: nat, depth: nat, parentHash: string, place: Place)
    requires i < |es|
    requires Listed(Walk(listing, i, es[i], depth, parentHash), place)
             || Listed(WalkAll(listing, es, i + 1, depth, parentHash), place)
    ensures Listed(WalkAll(listing, es, i, depth, parentHash), place)
  {
  }

  lemma FileIsListed(listing: Listing, i: nat, e: Entry, depth: nat, parentHash: string)
    requires depth <= MAX_BROWSE_DEPTH && !e.isDir
    ensures Listed(Walk(listing, i, e, depth, parentHash), [i])
  {
    assert Hit([i], Record(e, HashOf(e, parentHash))) in Walk(listing, i, e, depth, parentHash);
  }

  lemma WantedBelow(listing: Listing, es: seq<Entry>, depth: nat, parentHash: string, place: Place)
    requires Wanted(listing, es, depth, parentHash, place) && |place| > 1
    ensures var e := es[place[0]];
            && e.isDir && HashOf(e, parentHash) != "" && depth < MAX_BROWSE_DEPTH
            && Wanted(listing, Under(listing, e), depth + 1, HashOf(e, parentHash), place[1..])
  {
  }

  /** Nothing wanted is missing. */
  lemma {:induction false} WalkAllIsComplete(
      listing: Listing, es: seq<Entry>, i: nat, depth: nat, parentHash: string, place: Place)
    requires i <= |es| && Wanted(listing, es, depth, parentHash, place) && place[0] >= i
    ensures Listed(WalkAll(listing, es, i, depth, parentHash), place)
    decreases |place|, |es| - i
  {
    if place[0] > i {
      WalkAllIsComplete(listing, es, i + 1, depth, parentHash, place);
    } else if |place| == 1 {
      assert place == [i];
      FileIsListed(listing, i, es[i], depth, parentHash);
    } else {
      var hash := HashOf(es[i], parentHash);
      var sub := Under(listing, es[i]);
      WantedBelow(listing, es, depth, parentHash, place);
      WalkAllIsComplete(listing, sub, 0, depth + 1, hash, place[1..]);
      ListedBelow(i, WalkAll(listing, sub, 0, depth + 1, hash), place[1..]);
      assert place == [i] + place[1..];
    }
    ListedInAll(listing, es, i, depth, parentHash, place);
  }

  ghost predicate InOrder(hits: seq<Hit>) {
    forall j, k :: 0 <= j < k < |hits| ==> Before(hits[j].place, hits[k].place)
  }

  /** The places come in preorder, so no place comes twice. */
  lemma {:induction false} WalkInOrder(listing: Listing, es: seq<Entry>, i: nat, depth: nat, parentHash: string)
    requires i < |es|
    ensures InOrder(Walk(listing, i, es[i], depth, parentHash))
    decreases Fuel(depth), 0
  {
    var e := es[i];
    var hash := HashOf(e, parentHash);
    if depth <= MAX_BROWSE_DEPTH && e.isDir && hash != "" {
      var hits := WalkAll(listing, Under(listing, e), 0, depth + 1, hash);
      WalkAllInOrder(listing, Under(listing, e), 0, depth + 1, hash);
      var p := Prefixed(i, hits);
      forall j, k | 0 <= j < k < |p| ensures Before(p[j].place, p[k].place) {
        assert p[j].place[1..] == hits[j].place && p[k].place[1..] == hits[k].place;
      }
    }
  }

  lemma {:induction false} WalkAllInOrder(listing: Listing, es: seq<Entry>, i: nat, depth: nat, parentHash: string)
    requires i <= |es|
    ensures InOrder(WalkAll(listing, es, i, depth, parentHash))
    decreases Fuel(depth), 1, |es| - i
  {
    if i < |es| {
      var a, b := Walk(listing, i, es[i], depth, parentHash), WalkAll(listing, es, i + 1, depth, parentHash);
      WalkInOrder(listing, es, i, depth, parentHash);
      WalkAllInOrder(listing, es, i + 1, depth, parentHash);
      WalkIsRight(listing, es, i, depth, parentHash);
      WalkAllIsRight(listing, es, i + 1, depth, parentHash);
      var all := a + b;
      forall j, k | 0 <= j < k < |all| ensures Before(all[j].place, all[k].place) {
        if j < |a| <= k {
          assert a[j] in a && b[k - |a|] in b;
        } else if |a| <= j {
          assert Before(b[j - |a|].place, b[k - |a|].place);
        }
      }
    }
  }

  /** The list is exactly the wanted files, each once, in preorder, with its nearest hash. */
  ghost predicate ListsAll(listing: Listing, hits: seq<Hit>) {
    var roots := Flatten(listing(Roots));
    && InOrder(hits)
    && (forall h :: h in hits ==> Right(listing, roots, 0, "", h))
    && (forall place :: Wanted(listing, roots, 0, "", place) ==> Listed(hits, place))
  }

  lemma WalkListsAll(listing: Listing)
    ensures ListsAll(listing, WalkAll(listing, Flatten(listing(Roots)), 0, 0, ""))
  {
    var roots := Flatten(listing(Roots));
    WalkAllInOrder(listing, roots, 0, 0, "");
    WalkAllIsRight(listing, roots, 0, 0, "");
    forall place | Wanted(listing, roots, 0, "", place)
      ensures Listed(WalkAll(listing, roots, 0, 0, ""), place)
    {
      WalkAllIsComplete(listing, roots, 0, 0, "", place);
    }
  }

  // ----- the same without recursion -----

  /** Entry e is at that position of what the Core finds under a directory. */
  ghost predicate Step(listing: Listing, dir: Entry, position: nat, e: Entry) {
    var found := Flatten(listing(Dir(dir)));
    dir.isDir && position < |found| && found[position] == e
  }

  /** The entries on the way to a place, from one of es on. */
  ghost predicate WayFrom(listing: Listing, es: seq<Entry>, place: Place, way: seq<Entry>) {
    && |way| == |place| > 0
    && place[0] < |es| && way[0] == es[place[0]]
    && forall l :: 1 <= l < |way| ==> Step(listing, way[l - 1], place[l], way[l])
  }

  /** The hash of the last entry that has one, else the one from above. */
  ghost predicate LastHash(way: seq<Entry>, above: string, hash: string) {
    if exists j :: 0 <= j < |way| && way[j].hash != ""
    then exists j :: 0 <= j < |way| && hash == way[j].hash != "" && forall l :: j < l < |way| ==> way[l].hash == ""
    else hash == above
  }

  /** What is recorded of the file at the end of a way. */
  ghost predicate FileOf(way: seq<Entry>, above: string, file: File)
    requires way != []
  {
    RecordOf(way[|way| - 1], file) && LastHash(way, above, file.hash)
  }

  function WayOf(listing: Listing, es: seq<Entry>, place: Place): seq<Entry>
    requires Exists(listing, es, place)
    decreases |place|
  {
    var e := es[place[0]];
    [e] + if |place| == 1 then [] else WayOf(listing, Under(listing, e), place[1..])
  }

  lemma WayCons(listing: Listing, es: seq<Entry>, place: Place, e: Entry, rest: seq<Entry>)
    requires |place| > 1 && place[0] < |es| && e == es[place[0]] && e.isDir
    requires WayFrom(listing, Under(listing, e), place[1..], rest)
    ensures WayFrom(listing, es, place, [e] + rest)
  {
    var way := [e] + rest;
    forall l | 1 <= l < |way| ensures Step(listing, way[l - 1], place[l], way[l]) {
      if l > 1 { assert Step(listing, rest[l - 2], place[1..][l - 1], rest[l - 1]); }
    }
  }

  lemma {:induction false} WayIs(listing: Listing, es: seq<Entry>, place: Place)
    requires Exists(listing, es, place)
    ensures WayFrom(listing, es, place, WayOf(listing, es, place))
    ensures WayOf(listing, es, place)[|place| - 1] == EntryAt(listing, es, place)
    decreases |place|
  {
    if |place| > 1 {
      var e := es[place[0]];
      WayIs(listing, Under(listing, e), place[1..]);
      WayCons(listing, es, place, e, WayOf(listing, Under(listing, e), place[1..]));
    }
  }

  lemma {:induction false} WayExists(listing: Listing, es: seq<Entry>, place: Place, way: seq<Entry>)
    requires WayFrom(listing, es, place, way)
    ensures Exists(listing, es, place) && WayOf(listing, es, place) == way
    decreases |place|
  {
    if |place| > 1 {
      var sub := Under(listing, way[0]);
      assert Step(listing, way[0], place[1], way[1]);
      forall l | 1 <= l < |way[1..]| ensures Step(listing, way[1..][l - 1], place[1..][l], way[1..][l]) {
        assert Step(listing, way[l], place[l + 1], way[l + 1]);
      }
      WayExists(listing, sub, place[1..], way[1..]);
    }
  }

  lemma {:induction false} HashedIff(listing: Listing, es: seq<Entry>, place: Place, parentHash: string)
    requires Exists(listing, es, place)
    ensures Hashed(listing, es, place, parentHash) <==>
            |place| == 1 || parentHash != "" || es[place[0]].hash != ""
    decreases |place|
  {
    if |place| > 1 {
      var e := es[place[0]];
      HashedIff(listing, Under(listing, e), place[1..], HashOf(e, parentHash));
    }
  }

  lemma LastHashCons(e: Entry, rest: seq<Entry>, above: string, hash: string)
    requires LastHash(rest, if e.hash != "" then e.hash else above, hash)
    ensures LastHash([e] + rest, above, hash)
  {
    var way := [e] + rest;
    if j :| 0 <= j < |rest| && rest[j].hash != "" {
      assert way[j + 1].hash != "";
      var k :| 0 <= k < |rest| && hash == rest[k].hash != "" && forall l :: k < l < |rest| ==> rest[l].hash == "";
      forall l | k + 1 < l < |way| ensures way[l].hash == "" { assert way[l] == rest[l - 1]; }
      assert hash == way[k + 1].hash;
    } else if e.hash != "" {
      assert way[0].hash != "";
      forall l | 0 < l < |way| ensures way[l].hash == "" { assert way[l] == rest[l - 1]; }
    } else {
      forall l | 0 <= l < |way| ensures way[l].hash == "" { assert l > 0 ==> way[l] == rest[l - 1]; }
    }
  }

  lemma {:induction false} NearestIs(listing: Listing, es: seq<Entry>, place: Place, parentHash: string)
    requires Exists(listing, es, place)
    ensures LastHash(WayOf(listing, es, place), parentHash, NearestHash(listing, es, place, parentHash))
    decreases |place|
  {
    var e := es[place[0]];
    if |place| == 1 {
      LastHashCons(e, [], parentHash, HashOf(e, parentHash));
      assert [e] + [] == [e];
    } else {
      NearestIs(listing, Under(listing, e), place[1..], HashOf(e, parentHash));
      LastHashCons(e, WayOf(listing, Under(listing, e), place[1..]), parentHash,
                   NearestHash(listing, es, place, parentHash));
    }
  }

  lemma {:induction false} BeforeDiffers(a: Place, b: Place) returns (l: nat)
    requires Before(a, b)
    ensures l < |a| && l < |b| && a[..l] == b[..l] && a[l] < b[l]
  {
    if a[0] < b[0] {
      l := 0;
    } else {
      var k := BeforeDiffers(a[1..], b[1..]);
      l := k + 1;
      assert a[..l] == [a[0]] + a[1..][..k] && b[..l] == [b[0]] + b[1..][..k];
    }
  }

  /** A file down to depth 20, below a root that has a hash if it is not a root itself. */
  ghost predicate ToList(way: seq<Entry>) {
    0 < |way| <= 21 && !way[|way| - 1].isDir && (|way| == 1 || way[0].hash != "")
  }

  /** The first level at which a and b differ puts a in front. */
  ghost predicate InFront(a: Place, b: Place) {
    exists l :: 0 <= l < |a| && l < |b| && a[..l] == b[..l] && a[l] < b[l]
  }

  /** Exactly the files to list, each place once, in preorder, each with the record of its way. */
  ghost predicate AllFiles(listing: Listing, hits: seq<Hit>) {
    var roots := Flatten(listing(Roots));
    && (forall j, k :: 0 <= j < k < |hits| ==> InFront(hits[j].place, hits[k].place))
    && (forall h :: h in hits ==>
          exists way :: WayFrom(listing, roots, h.place, way) && ToList(way) && FileOf(way, "", h.file))
    && (forall place, way :: WayFrom(listing, roots, place, way) && ToList(way) ==> Listed(hits, place))
  }

  lemma RightIsRecorded(listing: Listing, h: Hit) returns (way: seq<Entry>)
    requires Right(listing, Flatten(listing(Roots)), 0, "", h)
    ensures WayFrom(listing, Flatten(listing(Roots)), h.place, way) && ToList(way) && FileOf(way, "", h.file)
  {
    var roots := Flatten(listing(Roots));
    way := WayOf(listing, roots, h.place);
    WayIs(listing, roots, h.place);
    HashedIff(listing, roots, h.place, "");
    NearestIs(listing, roots, h.place, "");
  }

  lemma ToListIsWanted(listing: Listing, place: Place, way: seq<Entry>)
    requires WayFrom(listing, Flatten(listing(Roots)), place, way) && ToList(way)
    ensures Wanted(listing, Flatten(listing(Roots)), 0, "", place)
  {
    var roots := Flatten(listing(Roots));
    WayExists(listing, roots, place, way);
    WayIs(listing, roots, place);
    HashedIff(listing, roots, place, "");
  }

  lemma ListsAllFiles(listing: Listing, hits: seq<Hit>)
    requires ListsAll(listing, hits)
    ensures AllFiles(listing, hits)
  {
    var roots := Flatten(listing(Roots));
    forall j, k | 0 <= j < k < |hits| ensures InFront(hits[j].place, hits[k].place) {
      var l := BeforeDiffers(hits[j].place, hits[k].place);
    }
    forall h | h in hits
      ensures exists way :: WayFrom(listing, roots, h.place, way) && ToList(way) && FileOf(way, "", h.file)
    {
      var way := RightIsRecorded(listing, h);
    }
    forall place, way | WayFrom(listing, roots, place, way) && ToList(way) ensures Listed(hits, place) {
      ToListIsWanted(listing, place, way);
    }
  }

  // ----- the files alone -----

  /** The files the walk adds for one entry, without their places. */
  function Collected(listing: Listing, e: Entry, depth: nat, parentHash: string): seq<File>
    decreases Fuel(depth), 0
  {
    var hash := HashOf(e, parentHash);
    if depth > MAX_BROWSE_DEPTH then []
    else if !e.isDir then [Record(e, hash)]
    else if hash == "" then []
    else CollectedAll(listing, Under(listing, e), depth + 1, hash)
  }

  function CollectedAll(listing: Listing, es: seq<Entry>, depth: nat, parentHash: string): seq<File>
    decreases Fuel(depth), 1, |es|
  {
    if es == [] then []
    else Collected(listing, es[0], depth, parentHash) + CollectedAll(listing, es[1..], depth, parentHash)
  }

  lemma {:induction false} CollectedAppend(
      listing: Listing, a: seq<Entry>, b: seq<Entry>, depth: nat, parentHash: string)
    ensures CollectedAll(listing, a + b, depth, parentHash) ==
            CollectedAll(listing, a, depth, parentHash) + CollectedAll(listing, b, depth, parentHash)
    decreases |a|
  {
    if a == [] {
      assert a + b == b;
    } else {
      CollectedAppend(listing, a[1..], b, depth, parentHash);
      assert (a + b)[1..] == a[1..] + b;
    }
  }

  lemma SameFiles(i: nat, hits: seq<Hit>)
    ensures Files(Prefixed(i, hits)) == Files(hits)
  {
  }

  lemma {:induction false} CollectedIsWalk(listing: Listing, i: nat, e: Entry, depth: nat, parentHash: string)
    ensures Files(Walk(listing, i, e, depth, parentHash)) == Collected(listing, e, depth, parentHash)
    decreases Fuel(depth), 0
  {
    var hash := HashOf(e, parentHash);
    if depth <= MAX_BROWSE_DEPTH && e.isDir && hash != "" {
      var sub := Under(listing, e);
      CollectedAllIsWalk(listing, sub, 0, depth + 1, hash);
      SameFiles(i, WalkAll(listing, sub, 0, depth + 1, hash));
    }
  }

  lemma {:induction false} CollectedAllIsWalk(listing: Listing, es: seq<Entry>, i: nat, depth: nat, parentHash: string)
    requires i <= |es|
    ensures Files(WalkAll(listing, es, i, depth, parentHash)) == CollectedAll(listing, es[i..], depth, parentHash)
    decreases Fuel(depth), 1, |es| - i
  {
    if i < |es| {
      CollectedIsWalk(listing, i, es[i], depth, parentHash);
      CollectedAllIsWalk(listing, es, i + 1, depth, parentHash);
      assert es[i..][1..] == es[i + 1..];
    }
  }

  /** The groups from k on are group k and those behind it. */
  lemma NextGroup(listing: Listing, before: seq<File>, groups: Content, k: nat, depth: nat, hash: string)
    requires k < |groups|
    ensures before + CollectedAll(listing, Flatten(groups[k..]), depth, hash) ==
            (before + CollectedAll(listing, groups[k], depth, hash))
            + CollectedAll(listing, Flatten(groups[k + 1..]), depth, hash)
  {
    var rest := Flatten(groups[k + 1..]);
    assert groups[k..][1..] == groups[k + 1..];
    CollectedAppend(listing, groups[k], rest, depth, hash);
    Assoc(before, CollectedAll(listing, groups[k], depth, hash), CollectedAll(listing, rest, depth, hash));
  }

  /** ... and so for the entries of a group. */
  lemma NextEntry(listing: Listing, before: seq<File>, group: seq<Entry>, k: nat, depth: nat, hash: string)
    requires k < |group|
    ensures before + CollectedAll(listing, group[k..], depth, hash) ==
            (before + Collected(listing, group[k], depth, hash)) + CollectedAll(listing, group[k + 1..], depth, hash)
  {
    assert group[k..][1..] == group[k + 1..];
    Assoc(before, Collected(listing, group[k], depth, hash), CollectedAll(listing, group[k + 1..], depth, hash));
  }

  // ----- the client object -----

  /** The list that the walk fills. */
  class FileList {
    var items: seq<File>

    constructor ()
      ensures items == []
    {
      items := [];
    }
  }

  /** The files that were hit, one for one. */
  ghost predicate FilesOf(files: seq<File>, hits: seq<Hit>) {
    |files| == |hits| && forall i :: 0 <= i < |files| ==> files[i] == hits[i].file
  }

  lemma FilesListAll(listing: Listing) returns (hits: seq<Hit>)
    ensures AllFiles(listing, hits) && FilesOf(CollectedAll(listing, Flatten(listing(Roots)), 0, ""), hits)
  {
    var roots := Flatten(listing(Roots));
    hits := WalkAll(listing, roots, 0, 0, "");
    WalkListsAll(listing);
    ListsAllFiles(listing, hits);
    CollectedAllIsWalk(listing, roots, 0, 0, "");
    assert roots[0..] == roots;
  }

  class CoreClient {
    const listing: Listing  // what the Core finds
    var pendingBrowseFuture: Option<Fut>
    var browseFutures: map<Tag, Fut>
    var done: map<Fut, Option<Content>>
    var nextFut: Fut

    function Now(): Client<Content>
      reads this
    {
      Client(pendingBrowseFuture, browseFutures, done)
    }

    /** No browse is under way. */
    ghost predicate Ready()
      reads this
    {
      Idle(Now()) && forall f :: f in done ==> f < nextFut
    }

    constructor (listing: Listing)
      ensures Ready() && this.listing == listing
    {
      this.listing := listing;
      pendingBrowseFuture, browseFutures, done, nextFut := None, map[], map[], 0;
    }

    method HandleMessage(msg: Msg<Content>)
      modifies `pendingBrowseFuture, `browseFutures, `done
      ensures msg.TagMsg? ==> pendingBrowseFuture == None && done == old(done)
      ensures msg.TagMsg? && old(pendingBrowseFuture).Some? ==>
                msg.tag in browseFutures && browseFutures[msg.tag] == old(pendingBrowseFuture).value
                && browseFutures - {msg.tag} == old(browseFutures) - {msg.tag}
      ensures msg.ResultMsg? ==> browseFutures == old(browseFutures) - {msg.tag}
                                 && pendingBrowseFuture == old(pendingBrowseFuture)
      ensures msg.ResultMsg? && msg.tag in old(browseFutures) ==> old(browseFutures)[msg.tag] in done
      ensures forall f :: f in old(done) ==> f in done && done[f] == old(done)[f]
      ensures forall f :: f in done && f !in old(done) ==>
                msg.ResultMsg? && msg.tag in old(browseFutures)
                && f == old(browseFutures)[msg.tag] && done[f] == Some(msg.content)
      ensures Now() == Handle(old(Now()), msg)
    {
      match msg {
        case TagMsg(tag) =>
          if pendingBrowseFuture.Some? {
            browseFutures := browseFutures[tag := pendingBrowseFuture.value];
            pendingBrowseFuture := None;
          }
        case ResultMsg(tag, content) =>
          if tag in browseFutures {
            var fut := browseFutures[tag];
            browseFutures := browseFutures - {tag};
            if fut !in done {
              done := done[fut := Some(content)];
            }
          }
        case OtherMsg =>
      }
    }

    /** Any number of messages that do not concern browsing. */
    method HandleOthers()
      modifies `pendingBrowseFuture, `browseFutures, `done
      ensures Now() == old(Now())
    {
      var noise: nat := *;
      while noise > 0
        invariant Now() == old(Now())
      {
        HandleMessage(OtherMsg);
        noise := noise - 1;
      }
    }

    /** One browse: the future is registered first; then, while the caller awaits it, the tag
        the Core picks and the result come in, with other messages in between. */
    method BrowseEntry(request: Request) returns (result: Content)
      requires Ready()
      modifies this
      ensures Ready() && result == listing(request)
    {
      var fut := nextFut;
      nextFut := nextFut + 1;
      pendingBrowseFuture := Some(fut);
      HandleOthers();
      var tag: Tag := *;
      HandleMessage(TagMsg(tag));
      assert browseFutures == map[tag := fut];
      HandleOthers();
      HandleMessage(ResultMsg(tag, listing(request)));
      assert browseFutures == map[];
      return done[fut].value;
    }

    method CollectFiles(entry: Entry, allFiles: FileList, depth: nat, parentHash: string)
      requires Ready()
      modifies this, allFiles
      ensures Ready()
      ensures allFiles.items == old(allFiles.items) + Collected(listing, entry, depth, parentHash)
      decreases Fuel(depth), 0
    {
      if depth > MAX_BROWSE_DEPTH {
        return;
      }
      var hash := if entry.hash != "" then entry.hash else parentHash;
      if !entry.isDir {
        allFiles.items := allFiles.items + [Record(entry, hash)];
      } else {
        if hash == "" {
          return;
        }
        var groups := BrowseEntry(Dir(entry));
        CollectGroups(groups, allFiles, depth, hash);
      }
    }

    /** The loop over the groups of a result. */
    method CollectGroups(groups: Content, allFiles: FileList, depth: nat, hash: string)
      requires Ready() && depth <= MAX_BROWSE_DEPTH
      modifies this, allFiles
      ensures Ready()
      ensures allFiles.items == old(allFiles.items) + CollectedAll(listing, Flatten(groups), depth + 1, hash)
      decreases Fuel(depth + 1), 3, |groups|
    {
      for k := 0 to |groups|
        invariant Ready()
        invariant old(allFiles.items) + CollectedAll(listing, Flatten(groups), depth + 1, hash) ==
                  allFiles.items + CollectedAll(listing, Flatten(groups[k..]), depth + 1, hash)
      {
        NextGroup(listing, allFiles.items, groups, k, depth + 1, hash);
        ProcessBrowseGroup(groups[k], allFiles, depth, hash);
      }
      assert groups[|groups|..] == [];
    }

    method ProcessBrowseGroup(group: seq<Entry>, allFiles: FileList, depth: nat, hash: string)
      requires Ready() && depth <= MAX_BROWSE_DEPTH
      modifies this, allFiles
      ensures Ready()
      ensures allFiles.items == old(allFiles.items) + CollectedAll(listing, group, depth + 1, hash)
      decreases Fuel(depth + 1), 2
    {
      for k := 0 to |group|
        invariant Ready()
        invariant old(allFiles.items) + CollectedAll(listing, group, depth + 1, hash) ==
                  allFiles.items + CollectedAll(listing, group[k..], depth + 1, hash)
      {
        NextEntry(listing, allFiles.items, group, k, depth + 1, hash);
        CollectFiles(group[k], allFiles, depth + 1, hash);
      }
      assert group[|group|..] == [];
    }

    /** The inner loop over the root entries. */
    method CollectRoots(group: seq<Entry>, allFiles: FileList)
      requires Ready()
      modifies this, allFiles
      ensures Ready()
      ensures allFiles.items == old(allFiles.items) + CollectedAll(listing, group, 0, "")
    {
      for k := 0 to |group|
        invariant Ready()
        invariant old(allFiles.items) + CollectedAll(listing, group, 0, "") ==
                  allFiles.items + CollectedAll(listing, group[k..], 0, "")
      {
        NextEntry(listing, allFiles.items, group, k, 0, "");
        CollectFiles(group[k], allFiles, 0, "");
      }
      assert group[|group|..] == [];
    }

    /** The outer loop, over the groups of roots. */
    method CollectRootGroups(groups: Content, allFiles: FileList)
      requires Ready()
      modifies this, allFiles
      ensures Ready()
      ensures allFiles.items == old(allFiles.items) + CollectedAll(listing, Flatten(groups), 0, "")
    {
      for k := 0 to |groups|
        invariant Ready()
        invariant old(allFiles.items) + CollectedAll(listing, Flatten(groups), 0, "") ==
                  allFiles.items + CollectedAll(listing, Flatten(groups[k..]), 0, "")
      {
        NextGroup(listing, allFiles.items, groups, k, 0, "");
        CollectRoots(groups[k], allFiles);
      }
      assert groups[|groups|..] == [];
    }

    /** All wanted files of the Core, each once, in preorder, with its nearest hash. */
    method GetAllFiles() returns (files: seq<File>, ghost hits: seq<Hit>)
      requires Ready()
      modifies this
      ensures Ready() && AllFiles(listing, hits)
      ensures FilesOf(files, hits)
    {
      var allFiles := new FileList();
      var groups := BrowseEntry(Roots);
      CollectRootGroups(groups, allFiles);
      files := allFiles.items;
      hits := FilesListAll(listing);
    }
  }
}
