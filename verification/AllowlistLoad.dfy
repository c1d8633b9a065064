/**
 Reloading the allowlist: files are grouped by the hash of their document, a hash that two
 files share is served for neither, and every file is accounted for. Which files a directory
 holds, what is in them and what the schema makes of them are inputs.
 */
module AllowlistLoad {
  import opened Bytes
  import opened Continuation
  import opened Parsing

  /** A scanned file: its path, its content if it can be read, and whether the schema takes it. */
  datatype File = File(name: string, content: Option<bytes>, valid: bool)

  // ----- What a load should publish

  predicate Usable(f: File, digest: bytes -> bytes, o: Options) {
    f.content.Some? && ResultOf(f.content.value, o, false).err.None? && f.valid
  }

  function KeyOf(f: File, digest: bytes -> bytes, o: Options): bytes
    requires Usable(f, digest, o)
  {
    DigestOf(digest, f.content.value, o).value
  }

  /** The names of the usable files with this hash, in read order. */
  function NamesWith(fs: seq<File>, key: bytes, digest: bytes -> bytes, o: Options): seq<string> {
    if fs == [] then []
    else
      var n := |fs| - 1;
      NamesWith(fs[..n], key, digest, o)
      + (if Usable(fs[n], digest, o) && KeyOf(fs[n], digest, o) == key then [fs[n].name] else [])
  }

  /** The hashes in the order their first files were read. */
  function Keys(fs: seq<File>, digest: bytes -> bytes, o: Options): seq<bytes> {
    if fs == [] then []
    else
      var n := |fs| - 1;
      var keys := Keys(fs[..n], digest, o);
      if Usable(fs[n], digest, o) && KeyOf(fs[n], digest, o) !in keys then keys + [KeyOf(fs[n], digest, o)] else keys
  }

  /** The names of the files that cannot be used. */
  function Unusable(fs: seq<File>, digest: bytes -> bytes, o: Options): seq<string> {
    if fs == [] then []
    else
      var n := |fs| - 1;
      Unusable(fs[..n], digest, o) + (if Usable(fs[n], digest, o) then [] else [fs[n].name])
  }

  /** Exactly one usable file has this hash. */
  predicate IsPublished(fs: seq<File>, key: bytes, digest: bytes -> bytes, o: Options) {
    |NamesWith(fs, key, digest, o)| == 1
  }

  /** The files whose document is served: usable, and alone with their hash; in read order. */
  function Served(part: seq<File>, all: seq<File>, digest: bytes -> bytes, o: Options): seq<string> {
    if part == [] then []
    else
      var n := |part| - 1;
      Served(part[..n], all, digest, o)
      + (if Usable(part[n], digest, o) && IsPublished(all, KeyOf(part[n], digest, o), digest, o) then [part[n].name] else [])
  }

  function NamesOf(fs: seq<File>): seq<string> {
    if fs == [] then [] else NamesOf(fs[..|fs| - 1]) + [fs[|fs| - 1].name]
  }

  // ----- The same, said of the files

  /** The schema takes the file, its content parses, and this is the hash of its document. */
  predicate HasHash(f: File, key: bytes, digest: bytes -> bytes, o: Options) {
    f.valid && f.content.Some? && DigestOf(digest, f.content.value, o) == Some(key)
  }

  /** Of all files, the one at n alone has the hash. */
  predicate IsOnly(fs: seq<File>, n: nat, key: bytes, digest: bytes -> bytes, o: Options) {
    n < |fs| && HasHash(fs[n], key, digest, o) && forall m: nat | m < |fs| && HasHash(fs[m], key, digest, o) :: m == n
  }

  lemma UsableIs(f: File, key: bytes, digest: bytes -> bytes, o: Options)
    ensures HasHash(f, key, digest, o) <==> Usable(f, digest, o) && KeyOf(f, digest, o) == key
  {
    hide Reading;
  }

  lemma {:induction false} NoneHas(fs: seq<File>, key: bytes, digest: bytes -> bytes, o: Options)
    ensures NamesWith(fs, key, digest, o) == [] <==> forall m: nat | m < |fs| :: !HasHash(fs[m], key, digest, o)
  {
    hide Usable, KeyOf, HasHash;
    if fs != [] {
      var n := |fs| - 1;
      UsableIs(fs[n], key, digest, o);
      NoneHas(fs[..n], key, digest, o);
      assert forall m: nat | m < n :: fs[..n][m] == fs[m];
    }
  }

  /** A hash is served exactly if one file alone has it. */
  lemma {:induction false} PublishedExactly(fs: seq<File>, key: bytes, digest: bytes -> bytes, o: Options)
    ensures IsPublished(fs, key, digest, o) <==> exists n: nat :: IsOnly(fs, n, key, digest, o)
  {
    hide Usable, KeyOf, HasHash;
    if fs != [] {
      var n := |fs| - 1;
      var less := fs[..n];
      UsableIs(fs[n], key, digest, o);
      PublishedExactly(less, key, digest, o);
      NoneHas(less, key, digest, o);
      assert forall m: nat | m < n :: less[m] == fs[m];
      if HasHash(fs[n], key, digest, o) {
        if NamesWith(less, key, digest, o) == [] {
          assert IsOnly(fs, n, key, digest, o);
        } else {
          var m: nat :| m < n && HasHash(less[m], key, digest, o);
          assert HasHash(fs[m], key, digest, o);
        }
      } else {
        assert forall m: nat :: IsOnly(less, m, key, digest, o) <==> IsOnly(fs, m, key, digest, o);
      }
    }
  }

  // ----- Grouping

  /** A hash is among the keys exactly if some usable file has it. */
  lemma {:induction false} KeysAre(fs: seq<File>, key: bytes, digest: bytes -> bytes, o: Options)
    ensures key in Keys(fs, digest, o) <==> NamesWith(fs, key, digest, o) != []
  {
    hide Usable, KeyOf;
    if fs != [] {
      KeysAre(fs[..|fs| - 1], key, digest, o);
    }
  }

  predicate Distinct(keys: seq<bytes>) {
    forall i, j | 0 <= i < j < |keys| :: keys[i] != keys[j]
  }

  lemma {:induction false} KeysDistinct(fs: seq<File>, digest: bytes -> bytes, o: Options)
    ensures Distinct(Keys(fs, digest, o))
  {
    hide Usable, KeyOf;
    if fs != [] {
      KeysDistinct(fs[..|fs| - 1], digest, o);
    }
  }

  /** What the groups of some keys add to the loaded files, one group after another. */
  function LoadedFrom(keys: seq<bytes>, fs: seq<File>, digest: bytes -> bytes, o: Options): seq<string> {
    if keys == [] then []
    else
      var n := |keys| - 1;
      LoadedFrom(keys[..n], fs, digest, o) + (if IsPublished(fs, keys[n], digest, o) then NamesWith(fs, keys[n], digest, o) else [])
  }

  /** What they add to the skipped ones. */
  function SkippedFrom(keys: seq<bytes>, fs: seq<File>, digest: bytes -> bytes, o: Options): seq<string> {
    if keys == [] then []
    else
      var n := |keys| - 1;
      SkippedFrom(keys[..n], fs, digest, o) + (if IsPublished(fs, keys[n], digest, o) then [] else NamesWith(fs, keys[n], digest, o))
  }

  lemma NamesWithStep(fs: seq<File>, n: nat, key: bytes, digest: bytes -> bytes, o: Options)
    requires n < |fs|
    ensures NamesWith(fs[..n + 1], key, digest, o) == NamesWith(fs[..n], key, digest, o)
              + (if Usable(fs[n], digest, o) && KeyOf(fs[n], digest, o) == key then [fs[n].name] else [])
  {
    hide Usable, KeyOf;
    assert fs[..n + 1][..n] == fs[..n];
  }

  /** The files read first are the first of their group. */
  lemma {:induction false} NamesWithGrows(fs: seq<File>, n: nat, key: bytes, digest: bytes -> bytes, o: Options)
    requires n <= |fs|
    ensures NamesWith(fs[..n], key, digest, o) <= NamesWith(fs, key, digest, o)
    decreases |fs| - n
  {
    hide Usable, KeyOf;
    if n < |fs| {
      NamesWithStep(fs, n, key, digest, o);
      NamesWithGrows(fs, n + 1, key, digest, o);
    } else {
      assert fs[..n] == fs;
    }
  }

  /** Going through the groups loads the served files in read order. */
  lemma {:induction false} LoadedInOrder(fs: seq<File>, n: nat, digest: bytes -> bytes, o: Options)
    requires n <= |fs|
    ensures LoadedFrom(Keys(fs[..n], digest, o), fs, digest, o) == Served(fs[..n], fs, digest, o)
    decreases n
  {
    hide Usable, KeyOf;
    if n > 0 {
      var m := n - 1;
      assert fs[..n][..m] == fs[..m];
      LoadedInOrder(fs, m, digest, o);
      if Usable(fs[m], digest, o) {
        var key := KeyOf(fs[m], digest, o);
        var keys := Keys(fs[..m], digest, o);
        KeysAre(fs[..m], key, digest, o);
        NamesWithStep(fs, m, key, digest, o);
        NamesWithGrows(fs, n, key, digest, o);
        assert (keys + [key])[..|keys|] == keys;
      }
    }
  }

  /** The files of all groups together. */
  function Grouped(keys: seq<bytes>, fs: seq<File>, digest: bytes -> bytes, o: Options): multiset<string> {
    if keys == [] then multiset{}
    else
      var n := |keys| - 1;
      Grouped(keys[..n], fs, digest, o) + multiset(NamesWith(fs, keys[n], digest, o))
  }

  lemma {:induction false} LoadedOrSkipped(keys: seq<bytes>, fs: seq<File>, digest: bytes -> bytes, o: Options)
    ensures multiset(LoadedFrom(keys, fs, digest, o)) + multiset(SkippedFrom(keys, fs, digest, o)) == Grouped(keys, fs, digest, o)
  {
    hide NamesWith, IsPublished;
    if keys != [] {
      LoadedOrSkipped(keys[..|keys| - 1], fs, digest, o);
    }
  }

  /** One file more adds to the one group with its hash. */
  lemma {:induction false} GroupedStep(keys: seq<bytes>, fs: seq<File>, n: nat, digest: bytes -> bytes, o: Options)
    requires n < |fs| && Distinct(keys)
    ensures Grouped(keys, fs[..n + 1], digest, o) == Grouped(keys, fs[..n], digest, o)
              + (if Usable(fs[n], digest, o) && KeyOf(fs[n], digest, o) in keys then multiset{fs[n].name} else multiset{})
    decreases |keys|
  {
    hide Usable, KeyOf, NamesWith;
    if keys != [] {
      var m := |keys| - 1;
      GroupedStep(keys[..m], fs, n, digest, o);
      NamesWithStep(fs, n, keys[m], digest, o);
      assert keys == keys[..m] + [keys[m]];
    }
  }

  lemma NoneGrouped(fs: seq<File>, digest: bytes -> bytes, o: Options)
    ensures Grouped([], fs, digest, o) == multiset{}
  {
  }

  /** Every usable file is in one group. */
  lemma {:induction false} AllGrouped(fs: seq<File>, n: nat, digest: bytes -> bytes, o: Options)
    requires n <= |fs|
    ensures Grouped(Keys(fs[..n], digest, o), fs[..n], digest, o) + multiset(Unusable(fs[..n], digest, o)) == multiset(NamesOf(fs[..n]))
    decreases n
  {
    hide Usable, KeyOf, NamesWith, Grouped, Distinct;
    NoneGrouped(fs[..n], digest, o);
    assert fs[..0] == [];
    if n > 0 {
      var m := n - 1;
      assert fs[..n][..m] == fs[..m];
      AllGrouped(fs, m, digest, o);
      var keys := Keys(fs[..m], digest, o);
      KeysDistinct(fs[..m], digest, o);
      GroupedStep(keys, fs, m, digest, o);
      if Usable(fs[m], digest, o) && KeyOf(fs[m], digest, o) !in keys {
        FirstOfGroup(fs, m, digest, o);
      }
    }
  }

  lemma FirstOfGroup(fs: seq<File>, m: nat, digest: bytes -> bytes, o: Options)
    requires m < |fs| && Usable(fs[m], digest, o) && KeyOf(fs[m], digest, o) !in Keys(fs[..m], digest, o)
    ensures var keys, key := Keys(fs[..m], digest, o), KeyOf(fs[m], digest, o);
            Grouped(keys + [key], fs[..m + 1], digest, o) == Grouped(keys, fs[..m + 1], digest, o) + multiset{fs[m].name}
  {
    hide Usable, KeyOf;
    var keys, key := Keys(fs[..m], digest, o), KeyOf(fs[m], digest, o);
    KeysAre(fs[..m], key, digest, o);
    NamesWithStep(fs, m, key, digest, o);
    assert (keys + [key])[..|keys|] == keys;
  }

  /** Every scanned file is either loaded or skipped, once. */
  lemma EveryFileOnce(fs: seq<File>, digest: bytes -> bytes, o: Options)
    ensures var keys := Keys(fs, digest, o);
            multiset(LoadedFrom(keys, fs, digest, o)) + multiset(Unusable(fs, digest, o) + SkippedFrom(keys, fs, digest, o))
            == multiset(NamesOf(fs))
    ensures LoadedFrom(Keys(fs, digest, o), fs, digest, o) == Served(fs, fs, digest, o)
  {
    hide Keys, Grouped, LoadedFrom, SkippedFrom, Unusable, NamesOf, Served;
    assert fs[..|fs|] == fs;
    AllGrouped(fs, |fs|, digest, o);
    LoadedOrSkipped(Keys(fs, digest, o), fs, digest, o);
    LoadedInOrder(fs, |fs|, digest, o);
  }

  // ----- Differences

  /** diff: how many hashes are new, and how many are gone. */
  method Diff(previous: Option<set<bytes>>, docs: set<bytes>) returns (added: nat, removed: nat)
    ensures var before := if previous.Some? then previous.value else {};
            added == |docs - before| && removed == |before - docs|
  {
    if previous.None? {
      assert docs - {} == docs && {} - docs == {};
      return |docs|, 0;
    }
    added := CountMissing(docs, previous.value);
    removed := CountMissing(previous.value, docs);
  }

  lemma OneLess(a: set<bytes>, b: set<bytes>, rest: set<bytes>, key: bytes)
    requires rest <= a && key in rest
    ensures |(a - (rest - {key})) - b| == |(a - rest) - b| + if key in b then 0 else 1
  {
    var before := (a - rest) - b;
    assert (a - (rest - {key})) - b == if key in b then before else before + {key};
  }

  /** How many elements of a are not in b, counted in whatever order. */
  method CountMissing(a: set<bytes>, b: set<bytes>) returns (n: nat)
    ensures n == |a - b|
  {
    n := 0;
    var rest := a;
    while rest != {}
      invariant rest <= a && n == |(a - rest) - b|
      decreases rest
    {
      var key :| key in rest;
      OneLess(a, b, rest, key);
      if key !in b {
        n := n + 1;
      }
      rest := rest - {key};
    }
    assert (a - {}) - b == a - b;
  }

  /** The size changes by what was added and removed. */
  lemma SizesAddUp(before: set<bytes>, after: set<bytes>)
    ensures |after| == |before| + |after - before| - |before - after|
  {
    assert after == (after * before) + (after - before) && before == (after * before) + (before - after);
    assert (after * before) !! (after - before) && (after * before) !! (before - after);
  }

  // ----- The allowlist

  datatype LoadResult = LoadResult(files: seq<string>, skipped: seq<string>, schemaErr: bool, added: nat, removed: nat)

  class Allowlist {
    const digest: bytes -> bytes
    const options: Options
    /** None until the first load: no allowlist rather than an empty one. */
    var current: Option<set<bytes>>

    constructor (digest: bytes -> bytes, o: Options)
      ensures current.None? && this.digest == digest && options == o
    {
      this.digest, options, current := digest, o, None;
    }

    function Docs(): set<bytes>
      reads this`current
    {
      if current.Some? then current.value else {}
    }

    method Allowed(key: bytes) returns (r: bool)
      ensures r <==> key in Docs()
    {
      r := current.Some? && key in current.value;
    }

    method Len() returns (n: nat)
      ensures n == |Docs()|
    {
      n := if current.None? then 0 else |current.value|;
    }

    /** A directory that cannot be scanned leaves what the allowlist held before. */
    method Reload(files: Option<seq<File>>, schemaErr: bool) returns (r: LoadResult, failed: bool)
      modifies this`current
      ensures failed <==> files.None?
      ensures failed ==> current == old(current)
      ensures !failed ==> current.Some? && forall key ::
                            key in current.value <==> exists n: nat :: IsOnly(files.value, n, key, digest, options)
      ensures !failed ==> r.files == Served(files.value, files.value, digest, options)
      ensures !failed ==> multiset(r.files) + multiset(r.skipped) == multiset(NamesOf(files.value))
      ensures !failed ==> r.added == |Docs() - old(Docs())| && r.removed == |old(Docs()) - Docs()|
      ensures !failed ==> |Docs()| == |old(Docs())| + r.added - r.removed
    {
      if files.None? {
        return LoadResult([], [], false, 0, 0), true;
      }
      var fs := files.value;
      var byHash, order, skipped := Group(fs);
      var docs, loaded, more := Publish(fs, byHash, order);
      var previous := current;
      current := Some(docs);
      var added, removed := Diff(previous, docs);
      forall key ensures key in docs <==> exists n: nat :: IsOnly(fs, n, key, digest, options) {
        PublishedExactly(fs, key, digest, options);
      }
      SizesAddUp(if previous.Some? then previous.value else {}, docs);
      EveryFileOnce(fs, digest, options);
      r := LoadResult(loaded, skipped + more, schemaErr, added, removed);
      failed := false;
    }

    /** The first loop: reads the files and gathers them under their hashes. */
    method Group(fs: seq<File>) returns (byHash: map<bytes, seq<string>>, order: seq<bytes>, skipped: seq<string>)
      ensures order == Keys(fs, digest, options) && skipped == Unusable(fs, digest, options)
      ensures forall key :: key in byHash <==> key in order
      ensures forall key | key in byHash :: byHash[key] == NamesWith(fs, key, digest, options)
    {
      hide Run, Reading;
      byHash, order, skipped := map[], [], [];
      var h := new Sink(digest);
      var p := new Parser(0);
      assert fs[..0] == [];
      for n := 0 to |fs|
        invariant p.Valid() && !h.broken && fresh(h) && fresh(p)
        invariant order == Keys(fs[..n], digest, options) && skipped == Unusable(fs[..n], digest, options)
        invariant forall key :: key in byHash <==> key in order
        invariant forall key | key in byHash :: byHash[key] == NamesWith(fs[..n], key, digest, options)
      {
        var f := fs[n];
        assert fs[..n + 1][..n] == fs[..n];
        if f.content.None? {
          skipped := skipped + [f.name];
          continue;
        }
        h.Reset();
        var e := p.Parse(h, options, f.content.value);
        if e.err.Some? {
          skipped := skipped + [f.name];
          continue;
        }
        if !f.valid {
          skipped := skipped + [f.name];
          continue;
        }
        ConcatOne(Reading(f.content.value, options).out);
        var key := h.Sum([]);
        assert key == KeyOf(f, digest, options);
        KeysAre(fs[..n], key, digest, options);
        if key !in byHash {
          order := order + [key];
          byHash := byHash[key := [f.name]];
        } else {
          byHash := byHash[key := byHash[key] + [f.name]];
        }
      }
      assert fs[..|fs|] == fs;
    }

    /** The second loop: publishes the hashes that one file has, skips the files of the others. */
    method Publish(ghost fs: seq<File>, byHash: map<bytes, seq<string>>, order: seq<bytes>)
      returns (docs: set<bytes>, loaded: seq<string>, skipped: seq<string>)
      requires order == Keys(fs, digest, options) && forall key :: key in byHash <==> key in order
      requires forall key | key in byHash :: byHash[key] == NamesWith(fs, key, digest, options)
      ensures forall key :: key in docs <==> |NamesWith(fs, key, digest, options)| == 1
      ensures loaded == LoadedFrom(order, fs, digest, options) && skipped == SkippedFrom(order, fs, digest, options)
    {
      hide NamesWith, Keys;
      docs, loaded, skipped := {}, [], [];
      assert order[..0] == [];
      for n := 0 to |order|
        invariant forall key :: key in docs <==> key in order[..n] && IsPublished(fs, key, digest, options)
        invariant loaded == LoadedFrom(order[..n], fs, digest, options) && skipped == SkippedFrom(order[..n], fs, digest, options)
      {
        var names := byHash[order[n]];
        assert order[..n + 1][..n] == order[..n] && order[..n + 1] == order[..n] + [order[n]];
        KeysAre(fs, order[n], digest, options);
        if |names| > 1 {
          skipped := skipped + names;
          continue;
        }
        docs := docs + {order[n]};
        loaded := loaded + [names[0]];
        assert [names[0]] == names;
      }
      assert order[..|order|] == order;
      forall key ensures key in docs <==> IsPublished(fs, key, digest, options) {
        KeysAre(fs, key, digest, options);
      }
    }
  }
}
