/** The response cache: a map from URL path to response bytes with an
  * entry-count guard on insertion, and bulk save to / load from a directory
  * of flat files named after the sanitized keys. */
module CacheFunction {
  import opened Http

  /** The guard constant. It is sized in bytes but compared with the number of entries. */
  const MaxCacheSize: int := 3 * 1024 * 1024 * 1024

  /** sanitizeFileName: every '/' becomes '_', every other character stays. */
  function SanitizeFileName(name: string): (r: string)
    ensures |r| == |name|
    ensures forall i :: 0 <= i < |name| ==> r[i] == if name[i] == '/' then '_' else name[i]
  {
    if name == [] then [] else [if name[0] == '/' then '_' else name[0]] + SanitizeFileName(name[1..])
  }

  lemma SanitizedHasNoSlash(name: string)
    ensures '/' !in SanitizeFileName(name)
  {
    var r := SanitizeFileName(name);
    forall i | 0 <= i < |r| ensures r[i] != '/' {}
  }

  lemma SanitizeIdempotent(name: string)
    ensures SanitizeFileName(SanitizeFileName(name)) == SanitizeFileName(name)
  {
    SanitizedHasNoSlash(name);
    var r := SanitizeFileName(name);
    assert forall i :: 0 <= i < |r| ==> r[i] != '/';
  }

  /** Two different keys can share a file name. */
  lemma SanitizeNotInjective()
    ensures "/a_b" != "_a/b" && SanitizeFileName("/a_b") == SanitizeFileName("_a/b")
  {
    assert SanitizeFileName("/a_b") == "_a_b";
    assert SanitizeFileName("_a/b") == "_a_b";
  }

  /** The guarded insertion of AddToCache. */
  function Insert(entries: map<string, seq<byte>>, key: string, data: seq<byte>): map<string, seq<byte>> {
    if |entries| >= MaxCacheSize then entries else entries[key := data]
  }

  /** Below the bound the key maps to the new data (overwriting) and every
    * other key keeps its value; at or above it nothing changes. */
  lemma InsertOutcome(entries: map<string, seq<byte>>, key: string, data: seq<byte>)
    ensures |entries| < MaxCacheSize ==>
      key in Insert(entries, key, data) && Insert(entries, key, data)[key] == data
    ensures |entries| < MaxCacheSize ==>
      forall k :: k != key ==> (k in Insert(entries, key, data) <==> k in entries)
    ensures |entries| < MaxCacheSize ==>
      forall k :: k != key && k in entries ==> Insert(entries, key, data)[k] == entries[k]
    ensures |entries| >= MaxCacheSize ==> Insert(entries, key, data) == entries
  {
  }

  /** AddToCache never takes the cache past the bound. */
  lemma InsertKeepsBound(entries: map<string, seq<byte>>, key: string, data: seq<byte>)
    requires |entries| <= MaxCacheSize
    ensures |Insert(entries, key, data)| <= MaxCacheSize
  {
    if |entries| < MaxCacheSize {
      var m := entries[key := data];
      assert m.Keys == entries.Keys + {key};
      assert |entries.Keys + {key}| <= |entries.Keys| + |{key}|;
    }
  }

  /** One file of the cache directory, as os.ReadFile sees it. */
  datatype FileEntry = Readable(data: seq<byte>) | Unreadable

  /** The cache directory: whether os.ReadDir succeeds, its entries by name,
    * and the names for which os.WriteFile fails. */
  datatype CacheDir = CacheDir(listable: bool, files: map<string, FileEntry>, unwritable: set<string>)

  datatype IoError = ReadDirError

  /** The names SaveCacheToDisk writes successfully for the given keys. */
  ghost function WrittenNames(keys: set<string>, unwritable: set<string>): set<string> {
    set k | k in keys && SanitizeFileName(k) !in unwritable :: SanitizeFileName(k)
  }

  /** after is what saving the given keys of entries into before can leave:
    * each successfully written name holds the data of one of the keys that
    * sanitize to it (which one depends on the iteration order), every other
    * file is untouched, and nothing else about the directory changes. */
  ghost predicate SavedKeys(entries: map<string, seq<byte>>, keys: set<string>, before: CacheDir, after: CacheDir)
    requires keys <= entries.Keys
  {
    && after.listable == before.listable
    && after.unwritable == before.unwritable
    && after.files.Keys == before.files.Keys + WrittenNames(keys, before.unwritable)
    && HoldsSaved(entries, keys, before, after)
    && Untouched(keys, before, after)
  }

  /** Each successfully written name holds the data of a key that sanitizes to it. */
  ghost predicate HoldsSaved(entries: map<string, seq<byte>>, keys: set<string>, before: CacheDir, after: CacheDir)
    requires keys <= entries.Keys
  {
    forall n :: n in WrittenNames(keys, before.unwritable) ==>
      exists k :: k in keys && SanitizeFileName(k) == n && n in after.files && after.files[n] == Readable(entries[k])
  }

  /** Every file that was not written keeps its contents. */
  ghost predicate Untouched(keys: set<string>, before: CacheDir, after: CacheDir) {
    forall n :: n in before.files && n !in WrittenNames(keys, before.unwritable) ==>
      n in after.files && after.files[n] == before.files[n]
  }

  /** The readable files of a directory, by name. */
  function ReadableFiles(dir: CacheDir): map<string, seq<byte>> {
    map n | n in dir.files && dir.files[n].Readable? :: dir.files[n].data
  }

  /** Saving into an empty, fully writable directory and loading into an empty
    * cache restores every key under its sanitized name, not under the key
    * itself: a key whose sanitized name no other key shares gets its data
    * back, and no restored key contains '/', so a request path starting with
    * '/' never finds a restored entry. */
  lemma SaveThenLoadRenames(entries: map<string, seq<byte>>, before: CacheDir, after: CacheDir)
    requires before.files == map[] && before.unwritable == {}
    requires SavedKeys(entries, entries.Keys, before, after)
    ensures ReadableFiles(after).Keys == set k | k in entries :: SanitizeFileName(k)
    ensures forall k :: k in entries && (forall k' :: k' in entries && SanitizeFileName(k') == SanitizeFileName(k) ==> k' == k)
              ==> ReadableFiles(after)[SanitizeFileName(k)] == entries[k]
    ensures forall n :: n in ReadableFiles(after) ==> '/' !in n
    ensures forall p :: |p| > 0 && p[0] == '/' ==> p !in ReadableFiles(after)
  {
    var restored := ReadableFiles(after);
    var names := set k | k in entries :: SanitizeFileName(k);
    assert WrittenNames(entries.Keys, {}) == names;
    forall n | n in names ensures n in restored && '/' !in n {
      var k :| k in entries.Keys && SanitizeFileName(k) == n && after.files[n] == Readable(entries[k]);
      SanitizedHasNoSlash(k);
    }
    assert restored.Keys == names;
    forall k | k in entries && (forall k' :: k' in entries && SanitizeFileName(k') == SanitizeFileName(k) ==> k' == k)
      ensures restored[SanitizeFileName(k)] == entries[k]
    {
      var n := SanitizeFileName(k);
      assert n in names;
      var k' :| k' in entries.Keys && SanitizeFileName(k') == n && after.files[n] == Readable(entries[k']);
    }
    forall p | |p| > 0 && p[0] == '/' ensures p !in restored {
      assert p[0] in p;
    }
  }

  /** LoadCacheFromDisk skips the guard: a cache already at the bound grows
    * past it when the directory holds a readable file under a new name. */
  lemma LoadCanExceedBound(entries: map<string, seq<byte>>, dir: CacheDir, name: string)
    requires |entries| >= MaxCacheSize
    requires name in dir.files && dir.files[name].Readable? && name !in entries
    ensures |entries + ReadableFiles(dir)| > MaxCacheSize
  {
    var m := entries + ReadableFiles(dir);
    assert entries.Keys + {name} <= m.Keys;
    assert |entries.Keys + {name}| == |entries.Keys| + 1;
    SubsetCard(entries.Keys + {name}, m.Keys);
  }

  lemma SubsetCard<T>(a: set<T>, b: set<T>)
    requires a <= b
    ensures |a| <= |b|
  {
    assert b == a + (b - a);
  }

  /** The package-level cache, as an object. */
  class Cache {
    var entries: map<string, seq<byte>>

    constructor ()
      ensures entries == map[]
    {
      entries := map[];
    }

    /** GetFromCache: the stored bytes and true for a key, nil and false otherwise. */
    method GetFromCache(key: string) returns (data: seq<byte>, found: bool)
      ensures found <==> key in entries
      ensures found ==> data == entries[key]
      ensures !found ==> data == []
    {
      found := key in entries;
      data := if found then entries[key] else [];
    }

    /** AddToCache: the guarded insertion. */
    method AddToCache(key: string, data: seq<byte>)
      modifies this
      ensures entries == Insert(old(entries), key, data)
      ensures |old(entries)| <= MaxCacheSize ==> |entries| <= MaxCacheSize
    {
      if |entries| <= MaxCacheSize {
        InsertKeepsBound(entries, key, data);
      }
      if |entries| >= MaxCacheSize {
        return;
      }
      entries := entries[key := data];
    }

    /** SaveCacheToDisk: writes every entry under its sanitized name, in an
      * unspecified order, skipping failed writes. It always returns nil and
      * leaves the cache alone. */
    method SaveCacheToDisk(dir: CacheDir) returns (saved: CacheDir, err: Option<IoError>)
      ensures err == None
      ensures SavedKeys(entries, entries.Keys, dir, saved)
    {
      saved := dir;
      var remaining := entries.Keys;
      while remaining != {}
        invariant remaining <= entries.Keys
        invariant SavedKeys(entries, entries.Keys - remaining, dir, saved)
        decreases remaining
      {
        var key :| key in remaining;
        var name := SanitizeFileName(key);
        ghost var done := entries.Keys - remaining;
        ghost var prev := saved;
        if name !in dir.unwritable {
          saved := saved.(files := saved.files[name := Readable(entries[key])]);
        }
        SaveStep(entries, done, key, dir, prev, saved);
        remaining := remaining - {key};
        assert entries.Keys - remaining == done + {key};
      }
      err := None;
    }

    /** LoadCacheFromDisk: fails without change when the directory cannot be
      * listed; otherwise stores every readable file under its file name,
      * without the guard, skipping unreadable ones. */
    method LoadCacheFromDisk(dir: CacheDir) returns (err: Option<IoError>)
      modifies this
      ensures !dir.listable ==> err == Some(ReadDirError) && entries == old(entries)
      ensures dir.listable ==> err == None && entries == old(entries) + ReadableFiles(dir)
    {
      if !dir.listable {
        return Some(ReadDirError);
      }
      var remaining := dir.files.Keys;
      var loaded := entries;
      while remaining != {}
        invariant remaining <= dir.files.Keys
        invariant loaded == old(entries) + map n | n in dir.files.Keys - remaining && dir.files[n].Readable? :: dir.files[n].data
        decreases remaining
      {
        var name :| name in remaining;
        match dir.files[name] {
          case Readable(data) =>
            loaded := loaded[name := data];
          case Unreadable =>
        }
        remaining := remaining - {name};
      }
      entries := loaded;
      return None;
    }
  }

  lemma WrittenNamesAdd(done: set<string>, key: string, unwritable: set<string>)
    ensures WrittenNames(done + {key}, unwritable)
         == WrittenNames(done, unwritable) + (if SanitizeFileName(key) !in unwritable then {SanitizeFileName(key)} else {})
  {
  }

  /** One iteration of the save loop keeps SavedKeys. */
  lemma SaveStep(entries: map<string, seq<byte>>, done: set<string>, key: string,
                 dir: CacheDir, prev: CacheDir, next: CacheDir)
    requires done <= entries.Keys && key in entries
    requires SavedKeys(entries, done, dir, prev)
    requires next == if SanitizeFileName(key) !in dir.unwritable
                     then prev.(files := prev.files[SanitizeFileName(key) := Readable(entries[key])])
                     else prev
    ensures SavedKeys(entries, done + {key}, dir, next)
  {
    WrittenNamesAdd(done, key, dir.unwritable);
    SaveStepWritten(entries, done, key, dir, prev, next);
    SaveStepUntouched(entries, done, key, dir, prev, next);
  }

  /** After one more iteration every file that was not written is still untouched. */
  lemma SaveStepUntouched(entries: map<string, seq<byte>>, done: set<string>, key: string,
                          dir: CacheDir, prev: CacheDir, next: CacheDir)
    requires done <= entries.Keys && key in entries
    requires SavedKeys(entries, done, dir, prev)
    requires next == if SanitizeFileName(key) !in dir.unwritable
                     then prev.(files := prev.files[SanitizeFileName(key) := Readable(entries[key])])
                     else prev
    requires WrittenNames(done + {key}, dir.unwritable)
          == WrittenNames(done, dir.unwritable) + (if SanitizeFileName(key) !in dir.unwritable then {SanitizeFileName(key)} else {})
    ensures Untouched(done + {key}, dir, next)
  {
    forall n | n in dir.files && n !in WrittenNames(done + {key}, dir.unwritable)
      ensures n in next.files && next.files[n] == dir.files[n]
    {
      assert n !in WrittenNames(done, dir.unwritable);
    }
  }

  /** After one more iteration every written name still holds the data of a
    * key that sanitizes to it. */
  lemma SaveStepWritten(entries: map<string, seq<byte>>, done: set<string>, key: string,
                        dir: CacheDir, prev: CacheDir, next: CacheDir)
    requires done <= entries.Keys && key in entries
    requires SavedKeys(entries, done, dir, prev)
    requires next == if SanitizeFileName(key) !in dir.unwritable
                     then prev.(files := prev.files[SanitizeFileName(key) := Readable(entries[key])])
                     else prev
    requires WrittenNames(done + {key}, dir.unwritable)
          == WrittenNames(done, dir.unwritable) + (if SanitizeFileName(key) !in dir.unwritable then {SanitizeFileName(key)} else {})
    ensures HoldsSaved(entries, done + {key}, dir, next)
  {
    var name := SanitizeFileName(key);
    forall n | n in WrittenNames(done + {key}, dir.unwritable)
      ensures exists k :: k in done + {key} && SanitizeFileName(k) == n && n in next.files && next.files[n] == Readable(entries[k])
    {
      if n == name && name !in dir.unwritable {
        assert next.files[n] == Readable(entries[key]);
      } else {
        assert n in WrittenNames(done, dir.unwritable);
        var k :| k in done && SanitizeFileName(k) == n && prev.files[n] == Readable(entries[k]);
        assert next.files[n] == prev.files[n];
      }
    }
  }
}
