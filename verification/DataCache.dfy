/** The stat-identity document caches (server-data-cache.ts), against the uncached loader. */
module DataCache {
  import opened Wrappers
  import opened JsMaps

  // ---- files and documents ----

  /** What lstat and a read of one file give: an identity that no other version of any file has, and the bytes. */
  datatype Stat<+B> = Stat(id: nat, body: B)

  /** The data directory; every rename yields a fresh identity. */
  class Files<B> {
    var at: map<string, Stat<B>>
    var bodies: map<nat, B>  // every version that ever was

    ghost predicate Valid()
      reads this
    {
      && (forall p :: p in at ==> at[p].id in bodies && bodies[at[p].id] == at[p].body)
      && (forall p, q :: p in at && q in at && at[p].id == at[q].id ==> p == q)
    }

    /** One rename over the path. */
    method Replace(path: string, body: B) returns (id: nat)
      requires Valid()
      modifies this
      ensures Valid() && id !in old(bodies) && bodies == old(bodies)[id := body]
      ensures at == old(at)[path := Stat(id, body)]
    {
      ghost var used := bodies.Keys;
      Unused(used);
      id :| id !in bodies.Keys;
      at := at[path := Stat(id, body)];
      bodies := bodies[id := body];
    }
  }

  /** One rename put these bytes at the path, in a new version. */
  ghost predicate Replaced<B>(before: map<string, Stat<B>>, bodies: map<nat, B>, after: map<string, Stat<B>>, path: string, body: B) {
    path in after && after == before[path := after[path]] && after[path].body == body && after[path].id !in bodies
  }

  lemma Unused(used: set<nat>)
    ensures exists id: nat :: id !in used
  {
    var bound := Above(used);
    assert bound !in used;
  }

  ghost function Above(used: set<nat>): (n: nat)
    ensures forall i :: i in used ==> i < n
  {
    if used == {} then 0 else
      var i :| i in used;
      var n := Above(used - {i});
      assert forall j :: j in used ==> j == i || j in used - {i};
      if i < n then n else i + 1
  }

  /** A parsed document on the heap: callers change the ones they are given. */
  class Document<D> {
    var value: D

    constructor (value: D)
      ensures this.value == value
    {
      this.value := value;
    }
  }

  datatype Parsed<!D> = Parsed(id: nat, doc: Document<D>)

  datatype Loaded<!D> = Ok(doc: Document<D>) | Unreadable

  /** A write succeeds, throws before the rename, or throws after it. */
  datatype WriteFault = NoFault | Before | After

  const DATA_CACHE_MAX_ENTRIES := 64

  // ---- least recently used first ----

  function Promoted<V>(cache: JsMap<string, V>, key: string, entry: V): (m: JsMap<string, V>)
    requires cache.Valid()
    ensures m.Valid() && m.keys == Without(cache.keys, key) + [key] && m.at == cache.at[key := entry]
  {
    cache.Delete(key).Set(key, entry)
  }

  /** trimDataCache: what stays is the most recently used end of the cache. */
  method Trim<V>(cache: JsMap<string, V>) returns (m: JsMap<string, V>)
    requires cache.Valid() && |cache.keys| <= DATA_CACHE_MAX_ENTRIES + 1
    ensures m.Valid() && |m.keys| <= DATA_CACHE_MAX_ENTRIES
    ensures m.keys == if |cache.keys| <= DATA_CACHE_MAX_ENTRIES then cache.keys else cache.keys[1..]
    ensures forall k :: k in m.at ==> k in cache.at && m.at[k] == cache.at[k]
  {
    m := cache;
    if |m.keys| > DATA_CACHE_MAX_ENTRIES {
      WithoutFirst(m.keys);
      m := m.Delete(m.keys[0]);
    }
  }

  /** promoteCacheEntry, then trimDataCache: the entry is last, and only the first of the others can have gone. */
  method PromoteAndTrim<V>(cache: JsMap<string, V>, key: string, entry: V) returns (m: JsMap<string, V>)
    requires cache.Valid() && |cache.keys| <= DATA_CACHE_MAX_ENTRIES
    ensures m.Valid() && |m.keys| <= DATA_CACHE_MAX_ENTRIES
    ensures key in m.at && m.at[key] == entry
    ensures var others := Without(cache.keys, key);
            m.keys == (if |others| < DATA_CACHE_MAX_ENTRIES then others else others[1..]) + [key]
    ensures forall k :: k in m.at && k != key ==> k in cache.at && m.at[k] == cache.at[k]
  {
    WithoutShrinks(cache.keys, key);
    var promoted := Promoted(cache, key, entry);
    m := Trim(promoted);
    assert m.keys[|m.keys| - 1] == key;
    assert key in m.keys;
  }

  lemma WithoutFirst(s: seq<string>)
    requires s != [] && forall i, j :: 0 <= i < j < |s| ==> s[i] != s[j]
    ensures Without(s, s[0]) == s[1..]
  {
    WithoutAbsent(s[1..], s[0]);
  }

  lemma {:induction false} WithoutAbsent(s: seq<string>, k: string)
    requires k !in s
    ensures Without(s, k) == s
  {
    if s != [] { WithoutAbsent(s[1..], k); }
  }

  lemma {:induction false} WithoutShrinks(s: seq<string>, k: string)
    ensures |Without(s, k)| <= |s|
    ensures k in s ==> |Without(s, k)| < |s|
  {
    if s != [] { WithoutShrinks(s[1..], k); }
  }

  // ---- the caches ----

  class Cache<B, D> {
    const files: Files<B>
    const decode: B -> Option<D>
    const encode: D -> B
    const blank: D  // createDefaultData()
    var parsed: JsMap<string, Parsed<D>>
    var validated: JsMap<string, nat>
    ghost var trusted: set<nat>  // versions that were validated, or published by WriteCloudData
    ghost var blanked: set<nat>  // versions that Load could not read, and remembered as blank
    ghost var published: map<nat, D>  // versions published by WriteCloudData, and the value they were written from

    ghost function Repr(): set<object>
      reads this`parsed
    {
      set k | k in parsed.at :: parsed.at[k].doc
    }

    ghost predicate Valid()
      reads this, files, Repr()
    {
      && files.Valid() && parsed.Valid() && validated.Valid()
      && |parsed.keys| <= DATA_CACHE_MAX_ENTRIES && |validated.keys| <= DATA_CACHE_MAX_ENTRIES
      && (forall k :: k in parsed.at ==> parsed.at[k].id in files.bodies)
      && (forall k :: k in parsed.at ==>
            Rememberable(files.bodies[parsed.at[k].id], parsed.at[k].id, parsed.at[k].doc.value))
      && (forall k :: k in validated.at ==> validated.at[k] in trusted)
      && trusted <= files.bodies.Keys && blanked <= files.bodies.Keys && published.Keys <= files.bodies.Keys
    }

    constructor (files: Files<B>, decode: B -> Option<D>, encode: D -> B, blank: D)
      requires files.Valid()
      ensures Valid() && this.files == files && this.decode == decode && this.encode == encode && this.blank == blank
      ensures parsed == Empty() && trusted == {} && blanked == {} && published == map[]
    {
      this.files, this.decode, this.encode, this.blank := files, decode, encode, blank;
      this.parsed, this.validated, this.trusted, this.blanked, this.published := Empty(), Empty(), {}, {}, map[];
    }

    /** What a version may be remembered as: its decoding, a blank if Load could not read it, or the value it was written from. */
    ghost predicate Rememberable(body: B, id: nat, value: D)
      reads this`blanked, this`published
    {
      decode(body) == Some(value) || (value == blank && id in blanked) || (id in published && published[id] == value)
    }

    /** loadAppDataUncached, when no read fails. */
    function OrBlank(body: B): D { if decode(body).Some? then decode(body).value else blank }

    /** loadAppDataForWriteUncached, when no read fails: None is "unreadable". */
    ghost function Uncached(path: string): Option<D>
      reads this, files
    {
      if path in files.at then decode(files.at[path].body) else Some(blank)
    }

    /** The version a load would be served from the cache. */
    predicate Hits(path: string)
      reads this`parsed, files
    {
      path in parsed.at && path in files.at && parsed.at[path].id == files.at[path].id
    }

    /** The current version of this path was once remembered as something else than loadAppData would read. */
    ghost predicate Misread(path: string)
      reads this`blanked, this`published, files
    {
      path in files.at
      && ((files.at[path].id in blanked && OrBlank(files.at[path].body) != blank)
          || (files.at[path].id in published && OrBlank(files.at[path].body) != published[files.at[path].id]))
    }

    /** This is how the current version of this path was remembered, as a blank or as what was written. */
    ghost predicate Misremembered(path: string, value: D)
      reads this`blanked, this`published, files
    {
      path in files.at
      && ((files.at[path].id in blanked && value == blank)
          || (files.at[path].id in published && value == published[files.at[path].id]))
    }

    /** A load would be served from the cache although the bytes do not decode. */
    ghost predicate HidesUnreadable(path: string)
      reads this`parsed, files
    {
      Hits(path) && decode(files.at[path].body).None?
    }

    /** structuredClone, which throws on some values; each call is told whether its clones do. */
    method TryClone(value: D, fails: bool) returns (copy: Option<Document<D>>)
      ensures copy.None? <==> fails
      ensures copy.Some? ==> fresh(copy.value) && copy.value.value == value
    {
      if fails { return None; }
      var d := new Document(value);
      copy := Some(d);
    }

    method Forget(path: string)
      requires Valid()
      modifies this`parsed
      ensures Valid() && parsed == old(parsed).Delete(path) && Repr() <= old(Repr())
      ensures forall k :: HidesUnreadable(k) ==> old(HidesUnreadable(k))
    {
      WithoutShrinks(parsed.keys, path);
      parsed := parsed.Delete(path);
    }

    /** promoteCacheEntry and trimDataCache, for an entry of the version that is there now. */
    method Store(path: string, copy: Document<D>)
      requires Valid() && path in files.at
      requires Rememberable(files.at[path].body, files.at[path].id, copy.value)
      modifies this`parsed
      ensures Valid() && Repr() <= old(Repr()) + {copy}
      ensures path in parsed.at && parsed.at[path] == Parsed(files.at[path].id, copy) && parsed.keys[|parsed.keys| - 1] == path
      ensures forall k :: k in parsed.at && k != path ==> k in old(parsed).at && parsed.at[k] == old(parsed).at[k]
    {
      parsed := PromoteAndTrim(parsed, path, Parsed(files.at[path].id, copy));
    }

    /** rememberParsedDataFile, for the bytes that are there now. */
    method RememberParsed(path: string, value: D, cloneFails: bool)
      requires Valid() && (path in files.at ==> Rememberable(files.at[path].body, files.at[path].id, value))
      modifies this`parsed
      ensures Valid() && fresh(Repr() - old(Repr()))
      ensures path in parsed.at <==> path in files.at && !cloneFails
      ensures path in parsed.at ==> Hits(path) && parsed.at[path].doc.value == value && fresh(parsed.at[path].doc)
      ensures forall k :: k in parsed.at && k != path ==> k in old(parsed).at && parsed.at[k] == old(parsed).at[k]
      ensures forall k :: HidesUnreadable(k) && k != path ==> old(HidesUnreadable(k))
    {
      if path !in files.at {
        Forget(path);
        return;
      }
      var copy := TryClone(value, cloneFails);
      if copy.None? {
        Forget(path);
        return;
      }
      Store(path, copy.value);
    }

    /** A cache hit: a fresh copy of what is cached, which becomes the most recently used entry. */
    method Hit(path: string, cloneFails: bool) returns (copy: Option<Document<D>>)
      requires Valid()
      modifies this`parsed
      ensures Valid() && Repr() <= old(Repr())
      ensures copy.Some? <==> old(Hits(path)) && !cloneFails
      ensures copy.Some? ==> fresh(copy.value) && copy.value.value == old(parsed.at[path].doc.value)
      ensures copy.Some? ==> Uncached(path) == Some(copy.value.value) || Misremembered(path, copy.value.value)
      ensures copy.Some? && !Misread(path) ==> copy.value.value == OrBlank(files.at[path].body)
      ensures copy.Some? ==> parsed.keys == Without(old(parsed).keys, path) + [path] && parsed.at == old(parsed).at
      ensures forall k :: HidesUnreadable(k) ==> old(HidesUnreadable(k))
    {
      hide Promoted, Without, Rememberable, JsMap.Valid;
      copy := None;
      if Hits(path) {
        CachedIs(path);
        copy := TryClone(parsed.at[path].doc.value, cloneFails);
        if copy.Some? { Touch(path); } else { Forget(path); }
      }
    }

    /** promoteCacheEntry, for an entry that is there. */
    method Touch(path: string)
      requires Valid() && Hits(path)
      modifies this`parsed
      ensures Valid() && parsed.keys == Without(old(parsed).keys, path) + [path] && parsed.at == old(parsed).at
    {
      hide Promoted, Without, Rememberable;
      WithoutShrinks(parsed.keys, path);
      parsed := Promoted(parsed, path, parsed.at[path]);
      assert parsed.at == old(parsed).at;
    }

    lemma CachedIs(path: string)
      requires Valid() && Hits(path)
      ensures Uncached(path) == Some(parsed.at[path].doc.value) || Misremembered(path, parsed.at[path].doc.value)
      ensures !Misread(path) ==> parsed.at[path].doc.value == OrBlank(files.at[path].body)
    {
    }

    /** readData and parse: None when the read or the parse fails. */
    function ReadFile(path: string, readFails: bool): Option<D>
      requires path in files.at
      reads this, files
    {
      if readFails then None else decode(files.at[path].body)
    }

    /** A load agrees with the uncached loader. */
    ghost predicate Agrees(path: string, r: Loaded<D>)
      reads this, files, if r.Ok? then {r.doc} else {}
    {
      Uncached(path) == if r.Ok? then Some(r.doc.value) else None
    }

    /**
     loadAppDataForWrite. Without faults, for a version never misread, it is the uncached loader
     exactly when it is not a hit on bytes that do not decode.
     */
    method LoadForWrite(path: string, cloneFails: bool, readFails: bool) returns (r: Loaded<D>)
      requires Valid()
      modifies this`parsed
      ensures Valid() && fresh(Repr() - old(Repr()))
      ensures r.Ok? ==> fresh(r.doc) && r.doc !in Repr()
      ensures old(Hits(path)) && !cloneFails ==> r.Ok? && r.doc.value == old(parsed.at[path].doc.value)
      ensures !readFails && !cloneFails && !Misread(path) ==> (Agrees(path, r) <==> !old(HidesUnreadable(path)))
      // whatever fails: the uncached answer, a refusal that a failed read explains, or that hit
      ensures r.Unreadable? ==> path in files.at && (readFails || Agrees(path, r))
      ensures r.Ok? && !Misread(path) ==> Agrees(path, r) || (old(HidesUnreadable(path)) && r.doc.value == blank)
      ensures r.Ok? ==> Agrees(path, r) || Misremembered(path, r.doc.value)
      ensures forall k :: HidesUnreadable(k) ==> old(HidesUnreadable(k))
    {
      hide Promoted, Without, Rememberable, Cache.Valid, JsMap.Valid;
      var copy := Hit(path, cloneFails);
      if copy.Some? { return Ok(copy.value); }
      if path !in files.at {
        var d := new Document(blank);
        RememberParsed(path, blank, cloneFails);
        return Ok(d);
      }
      var value := ReadFile(path, readFails);
      if value.None? { return Unreadable; }
      DecodedIsRememberable(path);
      var d := new Document(value.value);
      RememberParsed(path, value.value, cloneFails);
      r := Ok(d);
    }

    /** loadAppData: what cannot be read is an empty document, and is remembered as one. */
    method Load(path: string, cloneFails: bool, readFails: bool) returns (doc: Document<D>)
      requires Valid()
      modifies this`parsed, this`blanked
      ensures Valid() && fresh(Repr() - old(Repr())) && fresh(doc) && doc !in Repr()
      ensures !old(Misread(path)) || !old(Hits(path)) ==>
                doc.value == (if path in files.at then OrBlank(files.at[path].body) else blank) || (readFails && doc.value == blank)
      ensures Uncached(path) == Some(doc.value) || Misremembered(path, doc.value)
      ensures blanked == old(blanked)
              || (path in files.at && (readFails || Uncached(path).None?) && blanked == old(blanked) + {files.at[path].id})
      ensures forall k :: HidesUnreadable(k) ==> k == path || old(HidesUnreadable(k))
      ensures !cloneFails && path in files.at ==> Hits(path) && parsed.at[path].doc.value == doc.value
    {
      hide Promoted, Without, Rememberable, Cache.Valid, JsMap.Valid;
      var copy := Hit(path, cloneFails);
      if copy.Some? { return copy.value; }
      var value := Some(blank);
      if path in files.at {
        value := ReadFile(path, readFails);
        if value.None? {
          value := Some(blank);
          Blank(path);
        } else {
          DecodedIsRememberable(path);
        }
      }
      doc := new Document(value.value);
      RememberParsed(path, value.value, cloneFails);
    }

    /** writeData: a write that throws may still have replaced the file. */
    method WriteFile(path: string, value: D, fault: WriteFault) returns (ok: bool)
      requires Valid()
      modifies files
      ensures Valid() && files.bodies.Keys >= old(files.bodies).Keys && (ok <==> fault.NoFault?)
      ensures if fault.Before? then files.at == old(files.at) else Replaced(old(files.at), old(files.bodies), files.at, path, encode(value))
      ensures !fault.Before? ==> files.at[path].id !in published
      ensures forall k :: HidesUnreadable(k) && k != path ==> old(HidesUnreadable(k))
    {
      if fault.Before? { return false; }
      var id := files.Replace(path, encode(value));
      ok := fault.NoFault?;
    }

    lemma DecodedIsRememberable(path: string)
      requires path in files.at && decode(files.at[path].body).Some?
      ensures Rememberable(files.at[path].body, files.at[path].id, decode(files.at[path].body).value)
    {
    }

    /** Keeps record of a version that could not be read. */
    ghost method Blank(path: string)
      requires Valid() && path in files.at
      modifies this`blanked
      ensures Valid() && blanked == old(blanked) + {files.at[path].id}
      ensures Rememberable(files.at[path].body, files.at[path].id, blank)
    {
      blanked := blanked + {files.at[path].id};
    }

    /** Keeps record of what a new version was written from. */
    ghost method Publish(path: string, value: D)
      requires Valid() && path in files.at && files.at[path].id !in published
      modifies this`published
      ensures Valid() && published == old(published)[files.at[path].id := value]
      ensures Rememberable(files.at[path].body, files.at[path].id, value)
    {
      published := published[files.at[path].id := value];
    }

    /** writeCloudData. */
    method Write(path: string, doc: Document<D>, cloneFails: bool, fault: WriteFault) returns (ok: bool)
      requires Valid() && doc !in Repr()
      modifies this, files
      ensures Valid() && fresh(Repr() - old(Repr())) && doc.value == old(doc.value)
      ensures ok <==> fault.NoFault?
      ensures if fault.Before? then files.at == old(files.at) else Replaced(old(files.at), old(files.bodies), files.at, path, encode(doc.value))
      ensures ok && !cloneFails ==> Hits(path) && parsed.at[path].doc.value == doc.value
      ensures ok ==> published == old(published)[files.at[path].id := doc.value]
      ensures ok ==> trusted == old(trusted) + {files.at[path].id}
      ensures !ok ==> path !in parsed.at && trusted == old(trusted) && published == old(published)
      ensures blanked == old(blanked)
      ensures forall k :: HidesUnreadable(k) && k != path ==> old(HidesUnreadable(k))
    {
      hide Promoted, Without, OrBlank, HidesUnreadable, Rememberable, Cache.Valid, JsMap.Valid;
      ok := WriteFile(path, doc.value, fault);
      if !ok {
        Forget(path);
        return;
      }
      Publish(path, doc.value);
      RememberParsed(path, doc.value, cloneFails);
      RememberValidated(path);
    }

    /** rememberValidatedDataFile, called on bytes that were just validated or published. */
    method RememberValidated(path: string)
      requires Valid()
      modifies this`validated, this`trusted
      ensures Valid()
      ensures trusted == old(trusted) + if path in files.at then {files.at[path].id} else {}
      ensures path in files.at ==> path in validated.at && validated.at[path] == files.at[path].id
    {
      hide Promoted, Without, Rememberable, JsMap.Valid;
      WithoutShrinks(validated.keys, path);
      if path in files.at {
        trusted := trusted + {files.at[path].id};
        validated := PromoteAndTrim(validated, path, files.at[path].id);
      } else {
        validated := validated.Delete(path);
      }
    }

    /** isTrustedValidatedDataFile. */
    method IsTrusted(path: string) returns (yes: bool)
      requires Valid()
      modifies this`validated
      ensures Valid()
      ensures yes <==> path in files.at && path in old(validated).at && old(validated).at[path] == files.at[path].id
      ensures yes ==> files.at[path].id in trusted
    {
      WithoutShrinks(validated.keys, path);
      if path in validated.at && path in files.at && validated.at[path] == files.at[path].id {
        validated := Promoted(validated, path, validated.at[path]);
        return true;
      }
      if path in validated.at { validated := validated.Delete(path); }
      yes := false;
    }
  }

  // ---- whole runs ----

  /** What the server does with its caches; Other is a write by another process of the same directory. */
  datatype Op<B, D> =
    | Read(path: string, cloneFails: bool, readFails: bool)   // loadAppDataForWrite
    | Open(path: string, cloneFails: bool, readFails: bool)   // loadAppData
    | Store(path: string, value: D, cloneFails: bool, fault: WriteFault)
    | Validate(path: string)
    | Ask(path: string)                                       // isTrustedValidatedDataFile
    | Other(path: string, body: B)

  /** What an operation gives back. */
  datatype Answer<D> = Given(value: D) | Refused | Trusted(yes: bool) | Written(ok: bool) | Nothing

  predicate Replaces<B, D>(op: Op<B, D>, path: string) {
    op.path == path && (op.Other? || (op.Store? && !op.fault.Before?))
  }

  /** The bytes at each path after these operations; no cache has a part in it. */
  function Bodies<B, D>(initial: map<string, B>, encode: D -> B, ops: seq<Op<B, D>>): map<string, B>
    decreases |ops|
  {
    if ops == [] then initial
    else
      var before, op := Bodies(initial, encode, ops[..|ops| - 1]), ops[|ops| - 1];
      if !Replaces(op, op.path) then before else before[op.path := if op.Other? then op.body else encode(op.value)]
  }

  /** The version at the path after operation j is the one that operation i meets. */
  predicate SameSince<B, D>(ops: seq<Op<B, D>>, j: nat, i: nat, path: string)
    requires i <= |ops|
  {
    forall k :: j < k < i ==> !Replaces(ops[k], path)
  }

  /** This version was opened before, by a read that failed or with bytes that do not decode. */
  ghost predicate BlankedBefore<B(!new), D(!new)>(ops: seq<Op<B, D>>, i: nat, path: string, unreadable: bool)
    requires i <= |ops|
  {
    exists j :: 0 <= j < i && ops[j].path == path && SameSince(ops, j, i, path) && ops[j].Open? && (ops[j].readFails || unreadable)
  }

  /** This version was published by a write of this value that succeeded. */
  ghost predicate WrittenBefore<B(!new), D(!new)>(ops: seq<Op<B, D>>, i: nat, path: string, value: D)
    requires i <= |ops|
  {
    exists j :: 0 <= j < i && ops[j].path == path && SameSince(ops, j, i, path)
      && ops[j].Store? && ops[j].fault.NoFault? && ops[j].value == value
  }

  /** This version was validated, or published by a write that succeeded. */
  ghost predicate VouchedBefore<B(!new), D(!new)>(ops: seq<Op<B, D>>, i: nat, path: string)
    requires i <= |ops|
  {
    exists j :: 0 <= j < i && ops[j].path == path && SameSince(ops, j, i, path)
      && (ops[j].Validate? || (ops[j].Store? && ops[j].fault.NoFault?))
  }

  /** How an answer may differ from the bytes: a blank, or the value those bytes were written from. */
  ghost predicate Remembered<B(!new), D(!new)>(blank: D, ops: seq<Op<B, D>>, i: nat, path: string, unreadable: bool, value: D)
    requires i <= |ops|
  {
    (value == blank && BlankedBefore(ops, i, path, unreadable)) || WrittenBefore(ops, i, path, value)
  }

  /**
   What operation i may answer, given the bytes there are: a load what decoding them gives, or what
   the version was remembered as; a refusal or a blank where its own read failed; trust for vouched
   versions only.
   */
  ghost predicate RightAnswer<B(!new), D(!new)>(decode: B -> Option<D>, blank: D, bodies: map<string, B>,
                                                ops: seq<Op<B, D>>, i: nat, answer: Answer<D>)
    requires i < |ops|
  {
    var path := ops[i].path;
    var uncached := if path in bodies then decode(bodies[path]) else Some(blank);
    match ops[i]
    case Read(_, _, readFails) =>
      || answer == (if uncached.Some? then Given(uncached.value) else Refused)
      || (readFails && answer == Refused)
      || (answer.Given? && Remembered(blank, ops, i, path, uncached.None?, answer.value))
    case Open(_, _, readFails) =>
      answer.Given?
      && (|| answer.value == (if uncached.Some? then uncached.value else blank)
          || (readFails && answer.value == blank)
          || Remembered(blank, ops, i, path, uncached.None?, answer.value))
    case Store(_, _, _, fault) => answer == Written(fault.NoFault?)
    case Ask(_) => answer.Trusted? && (answer.yes ==> path in bodies && VouchedBefore(ops, i, path))
    case _ => answer == Nothing
  }

  /**
   What the caches know after the first i operations of a run: which bytes there are, and, of the
   versions that are there now, which can have been blanked, which were published, and which are trusted.
   */
  ghost predicate Follows<B(!new), D(!new)>(decode: B -> Option<D>, encode: D -> B, initial: map<string, B>, ops: seq<Op<B, D>>, i: nat,
                                            at: map<string, Stat<B>>, blanked: set<nat>, published: map<nat, D>, trusted: set<nat>)
    requires i <= |ops|
  {
    && at.Keys == Bodies(initial, encode, ops[..i]).Keys
    && (forall p :: p in at ==> at[p].body == Bodies(initial, encode, ops[..i])[p])
    && (forall p :: p in at && at[p].id in blanked ==> BlankedBefore(ops, i, p, decode(at[p].body).None?))
    && (forall p :: p in at && at[p].id in published ==> WrittenBefore(ops, i, p, published[at[p].id]))
    && (forall p :: p in at && at[p].id in trusted ==> VouchedBefore(ops, i, p))
  }

  function Contents<B>(at: map<string, Stat<B>>): map<string, B> { map p | p in at :: at[p].body }

  lemma FollowsNothing<B(!new), D(!new)>(decode: B -> Option<D>, encode: D -> B, ops: seq<Op<B, D>>, at: map<string, Stat<B>>)
    ensures Follows(decode, encode, Contents(at), ops, 0, at, {}, map[], {})
  {
  }

  ghost predicate Tracks<B(!new), D(!new)>(cache: Cache<B, D>, initial: map<string, B>, ops: seq<Op<B, D>>, i: nat)
    requires i <= |ops|
    reads cache, cache.files, cache.Repr()
  {
    cache.Valid() && Follows(cache.decode, cache.encode, initial, ops, i, cache.files.at, cache.blanked, cache.published, cache.trusted)
  }

  /** An operation that replaces no file. */
  lemma FollowsOn<B(!new), D(!new)>(decode: B -> Option<D>, encode: D -> B, initial: map<string, B>, ops: seq<Op<B, D>>, i: nat,
                                    at: map<string, Stat<B>>, blanked: set<nat>, published: map<nat, D>, trusted: set<nat>,
                                    blanked1: set<nat>, trusted1: set<nat>)
    requires i < |ops| && Follows(decode, encode, initial, ops, i, at, blanked, published, trusted) && !Replaces(ops[i], ops[i].path)
    requires forall p, q :: p in at && q in at && at[p].id == at[q].id ==> p == q
    requires blanked1 == blanked
             || (ops[i].Open? && ops[i].path in at && (ops[i].readFails || decode(at[ops[i].path].body).None?)
                 && blanked1 == blanked + {at[ops[i].path].id})
    requires trusted1 == trusted || (ops[i].Validate? && ops[i].path in at && trusted1 == trusted + {at[ops[i].path].id})
    ensures Follows(decode, encode, initial, ops, i + 1, at, blanked1, published, trusted1)
  {
    hide Bodies, BlankedBefore, WrittenBefore, VouchedBefore;
    OneMore(ops, i);
    Latest(ops, i);
    BodiesAfter(initial, encode, ops, i);
  }

  /** An operation that replaces one, by a version that no cache knew. */
  lemma FollowsWrite<B(!new), D(!new)>(decode: B -> Option<D>, encode: D -> B, initial: map<string, B>, ops: seq<Op<B, D>>, i: nat,
                                       at: map<string, Stat<B>>, bodies: map<nat, B>,
                                       blanked: set<nat>, published: map<nat, D>, trusted: set<nat>,
                                       at1: map<string, Stat<B>>, published1: map<nat, D>, trusted1: set<nat>)
    requires i < |ops| && Follows(decode, encode, initial, ops, i, at, blanked, published, trusted) && Replaces(ops[i], ops[i].path)
    requires Replaced(at, bodies, at1, ops[i].path, if ops[i].Other? then ops[i].body else encode(ops[i].value))
    requires blanked <= bodies.Keys && published.Keys <= bodies.Keys && trusted <= bodies.Keys
    requires forall p :: p in at ==> at[p].id in bodies
    requires published1 == published
             || (ops[i].Store? && ops[i].fault.NoFault? && published1 == published[at1[ops[i].path].id := ops[i].value])
    requires trusted1 == trusted || (ops[i].Store? && ops[i].fault.NoFault? && trusted1 == trusted + {at1[ops[i].path].id})
    ensures Follows(decode, encode, initial, ops, i + 1, at1, blanked, published1, trusted1)
  {
    hide Bodies, BlankedBefore, WrittenBefore, VouchedBefore;
    OneMore(ops, i);
    Latest(ops, i);
    BodiesAfter(initial, encode, ops, i);
  }

  /** A load gave this, where the caches were right about what they know. */
  lemma ReadIsRight<B(!new), D(!new)>(decode: B -> Option<D>, encode: D -> B, blank: D, initial: map<string, B>, ops: seq<Op<B, D>>, i: nat,
                                      at: map<string, Stat<B>>, blanked: set<nat>, published: map<nat, D>, trusted: set<nat>,
                                      blanked1: set<nat>, answer: Answer<D>)
    requires i < |ops| && Follows(decode, encode, initial, ops, i, at, blanked, published, trusted)
    requires (ops[i].Read? && blanked1 == blanked && (answer.Given? || answer.Refused?)) || (ops[i].Open? && answer.Given?)
    requires var p := ops[i].path;
             var uncached := if p in at then decode(at[p].body) else Some(blank);
             && (answer.Refused? ==> p in at && (ops[i].readFails || uncached.None?))
             && (blanked1 == blanked || (p in at && (ops[i].readFails || uncached.None?) && blanked1 == blanked + {at[p].id}))
             && (answer.Given? ==>
                   || uncached == Some(answer.value)
                   || (p in at && at[p].id in blanked1 && answer.value == blank)
                   || (p in at && at[p].id in published && answer.value == published[at[p].id]))
    ensures RightAnswer(decode, blank, Bodies(initial, encode, ops[..i]), ops, i, answer)
  {
    hide Bodies, BlankedBefore, WrittenBefore, VouchedBefore;
  }

  /** Somebody who was given a document changes it. */
  method Scribble<D>(doc: Document<D>, value: D)
    modifies doc
    ensures doc.value == value
  {
    doc.value := value;
  }

  /** One more operation leaves a version that it does not replace as it was. */
  lemma OneMore<B(!new), D(!new)>(ops: seq<Op<B, D>>, i: nat)
    requires i < |ops|
    ensures forall p, unreadable :: !Replaces(ops[i], p) && BlankedBefore(ops, i, p, unreadable) ==> BlankedBefore(ops, i + 1, p, unreadable)
    ensures forall p, v :: !Replaces(ops[i], p) && WrittenBefore(ops, i, p, v) ==> WrittenBefore(ops, i + 1, p, v)
    ensures forall p :: !Replaces(ops[i], p) && VouchedBefore(ops, i, p) ==> VouchedBefore(ops, i + 1, p)
  {
    forall p, j | !Replaces(ops[i], p) && 0 <= j < i && SameSince(ops, j, i, p) ensures SameSince(ops, j, i + 1, p) {}
  }

  lemma Latest<B(!new), D(!new)>(ops: seq<Op<B, D>>, i: nat)
    requires i < |ops|
    ensures ops[i].Open? ==> BlankedBefore(ops, i + 1, ops[i].path, true)
    ensures ops[i].Open? && ops[i].readFails ==> BlankedBefore(ops, i + 1, ops[i].path, false)
    ensures ops[i].Store? && ops[i].fault.NoFault? ==> WrittenBefore(ops, i + 1, ops[i].path, ops[i].value)
    ensures ops[i].Validate? || (ops[i].Store? && ops[i].fault.NoFault?) ==> VouchedBefore(ops, i + 1, ops[i].path)
  {
    assert SameSince(ops, i, i + 1, ops[i].path);
  }

  lemma BodiesAfter<B, D>(initial: map<string, B>, encode: D -> B, ops: seq<Op<B, D>>, i: nat)
    requires i < |ops|
    ensures Bodies(initial, encode, ops[..i + 1]) ==
            if !Replaces(ops[i], ops[i].path) then Bodies(initial, encode, ops[..i])
            else Bodies(initial, encode, ops[..i])[ops[i].path := if ops[i].Other? then ops[i].body else encode(ops[i].value)]
  {
    assert ops[..i + 1][..i] == ops[..i];
  }

  method StepStore<B(!new,0), D(!new,0)>(cache: Cache<B, D>, ghost initial: map<string, B>, ops: seq<Op<B, D>>, i: nat, scribble: D)
    returns (answer: Answer<D>)
    requires i < |ops| && Tracks(cache, initial, ops, i) && ops[i].Store?
    modifies cache, cache.files
    ensures Tracks(cache, initial, ops, i + 1) && fresh(cache.Repr() - old(cache.Repr()))
    ensures answer == Written(ops[i].fault.NoFault?)
  {
    hide Bodies, BlankedBefore, WrittenBefore, VouchedBefore, SameSince, Promoted, Without, JsMap.Valid, Follows;
    ghost var at, bodies, blanked, published, trusted := cache.files.at, cache.files.bodies, cache.blanked, cache.published, cache.trusted;
    var doc := new Document(ops[i].value);
    var ok := cache.Write(ops[i].path, doc, ops[i].cloneFails, ops[i].fault);
    answer := Written(ok);
    if ops[i].fault.Before? {
      FollowsOn(cache.decode, cache.encode, initial, ops, i, at, blanked, published, trusted, cache.blanked, cache.trusted);
    } else {
      FollowsWrite(cache.decode, cache.encode, initial, ops, i, at, bodies, blanked, published, trusted,
                   cache.files.at, cache.published, cache.trusted);
    }
    Scribble(doc, scribble);
  }

  method StepRest<B(!new,0), D(!new,0)>(cache: Cache<B, D>, ghost initial: map<string, B>, ops: seq<Op<B, D>>, i: nat)
    returns (answer: Answer<D>)
    requires i < |ops| && Tracks(cache, initial, ops, i) && (ops[i].Validate? || ops[i].Ask? || ops[i].Other?)
    modifies cache, cache.files
    ensures Tracks(cache, initial, ops, i + 1) && fresh(cache.Repr() - old(cache.Repr()))
    ensures RightAnswer(cache.decode, cache.blank, Bodies(initial, cache.encode, ops[..i]), ops, i, answer)
  {
    hide Bodies, BlankedBefore, WrittenBefore, VouchedBefore, SameSince, Promoted, Without, JsMap.Valid;
    ghost var at, bodies, blanked, published, trusted := cache.files.at, cache.files.bodies, cache.blanked, cache.published, cache.trusted;
    answer := Nothing;
    match ops[i] {
      case Validate(path) =>
        cache.RememberValidated(path);
        FollowsOn(cache.decode, cache.encode, initial, ops, i, at, blanked, published, trusted, cache.blanked, cache.trusted);
      case Ask(path) =>
        var yes := cache.IsTrusted(path);
        answer := Trusted(yes);
        FollowsOn(cache.decode, cache.encode, initial, ops, i, at, blanked, published, trusted, cache.blanked, cache.trusted);
      case Other(path, body) =>
        var id := cache.files.Replace(path, body);
        FollowsWrite(cache.decode, cache.encode, initial, ops, i, at, bodies, blanked, published, trusted,
                     cache.files.at, cache.published, cache.trusted);
    }
  }

  method StepRead<B(!new,0), D(!new,0)>(cache: Cache<B, D>, ghost initial: map<string, B>, ops: seq<Op<B, D>>, i: nat, scribble: D)
    returns (answer: Answer<D>)
    requires i < |ops| && Tracks(cache, initial, ops, i) && ops[i].Read?
    modifies cache, cache.files
    ensures Tracks(cache, initial, ops, i + 1) && fresh(cache.Repr() - old(cache.Repr()))
    ensures RightAnswer(cache.decode, cache.blank, Bodies(initial, cache.encode, ops[..i]), ops, i, answer)
  {
    hide Bodies, BlankedBefore, WrittenBefore, VouchedBefore, SameSince, Promoted, Without, JsMap.Valid, Follows;
    ghost var at, blanked, published, trusted := cache.files.at, cache.blanked, cache.published, cache.trusted;
    var r := cache.LoadForWrite(ops[i].path, ops[i].cloneFails, ops[i].readFails);
    answer := if r.Ok? then Given(r.doc.value) else Refused;
    ReadIsRight(cache.decode, cache.encode, cache.blank, initial, ops, i, at, blanked, published, trusted, cache.blanked, answer);
    FollowsOn(cache.decode, cache.encode, initial, ops, i, at, blanked, published, trusted, cache.blanked, cache.trusted);
    if r.Ok? { Scribble(r.doc, scribble); }
  }

  method StepOpen<B(!new,0), D(!new,0)>(cache: Cache<B, D>, ghost initial: map<string, B>, ops: seq<Op<B, D>>, i: nat, scribble: D)
    returns (answer: Answer<D>)
    requires i < |ops| && Tracks(cache, initial, ops, i) && ops[i].Open?
    modifies cache, cache.files
    ensures Tracks(cache, initial, ops, i + 1) && fresh(cache.Repr() - old(cache.Repr()))
    ensures RightAnswer(cache.decode, cache.blank, Bodies(initial, cache.encode, ops[..i]), ops, i, answer)
  {
    hide Bodies, BlankedBefore, WrittenBefore, VouchedBefore, SameSince, Promoted, Without, JsMap.Valid, Follows;
    ghost var at, blanked, published, trusted := cache.files.at, cache.blanked, cache.published, cache.trusted;
    var doc := cache.Load(ops[i].path, ops[i].cloneFails, ops[i].readFails);
    answer := Given(doc.value);
    ReadIsRight(cache.decode, cache.encode, cache.blank, initial, ops, i, at, blanked, published, trusted, cache.blanked, answer);
    FollowsOn(cache.decode, cache.encode, initial, ops, i, at, blanked, published, trusted, cache.blanked, cache.trusted);
    Scribble(doc, scribble);
  }

  /** The next operation of a run. */
  method Step<B(!new,0), D(!new,0)>(cache: Cache<B, D>, ghost initial: map<string, B>, ops: seq<Op<B, D>>, i: nat, scribble: D)
    returns (answer: Answer<D>)
    requires i < |ops| && Tracks(cache, initial, ops, i)
    modifies cache, cache.files
    ensures Tracks(cache, initial, ops, i + 1) && fresh(cache.Repr() - old(cache.Repr()))
    ensures RightAnswer(cache.decode, cache.blank, Bodies(initial, cache.encode, ops[..i]), ops, i, answer)
  {
    hide Bodies, BlankedBefore, WrittenBefore, VouchedBefore, SameSince, Promoted, Without, JsMap.Valid, Follows, Cache.Valid;
    match ops[i] {
      case Read(_, _, _) => answer := StepRead(cache, initial, ops, i, scribble);
      case Open(_, _, _) => answer := StepOpen(cache, initial, ops, i, scribble);
      case Store(_, _, _, _) => answer := StepStore(cache, initial, ops, i, scribble);
      case _ => answer := StepRest(cache, initial, ops, i);
    }
  }

  /**
   Every run of loads, writes that may throw, validations and writes by others, where every document
   handed out is changed by its caller: each answer is right for the bytes there were when it was
   given, and no cache exceeds its bound.
   */
  method Run<B(!new,0), D(!new,0)>(files: Files<B>, decode: B -> Option<D>, encode: D -> B, blank: D, ops: seq<Op<B, D>>, scribble: D)
    returns (cache: Cache<B, D>, answers: seq<Answer<D>>)
    requires files.Valid()
    modifies files
    ensures fresh(cache) && cache.Valid() && |answers| == |ops|
    ensures |cache.parsed.keys| <= DATA_CACHE_MAX_ENTRIES && |cache.validated.keys| <= DATA_CACHE_MAX_ENTRIES
    ensures forall i :: 0 <= i < |ops| ==>
              RightAnswer(decode, blank, Bodies(Contents(old(files.at)), encode, ops[..i]), ops, i, answers[i])
  {
    hide RightAnswer, Bodies, BlankedBefore, WrittenBefore, VouchedBefore, Follows, Contents;
    cache := new Cache(files, decode, encode, blank);
    ghost var initial := Contents(files.at);
    FollowsNothing(decode, encode, ops, files.at);
    answers := [];
    while |answers| < |ops|
      invariant |answers| <= |ops| && cache.files == files && cache.decode == decode && cache.encode == encode && cache.blank == blank
      invariant fresh(cache) && fresh(cache.Repr()) && Tracks(cache, initial, ops, |answers|)
      invariant forall i :: 0 <= i < |answers| ==> RightAnswer(decode, blank, Bodies(initial, encode, ops[..i]), ops, i, answers[i])
    {
      var answer := Step(cache, initial, ops, |answers|, scribble);
      answers := answers + [answer];
    }
  }

  /** Loading a file that does not decode with loadAppData turns it, for loadAppDataForWrite, into an empty document. */
  method UnreadableBecomesBlank<B, D(0)>(cache: Cache<B, D>, path: string) returns (r: Loaded<D>)
    requires cache.Valid() && path in cache.files.at && cache.decode(cache.files.at[path].body).None? && !cache.Hits(path)
    modifies cache
    ensures cache.Uncached(path).None? && r.Ok? && r.doc.value == cache.blank
  {
    var doc := cache.Load(path, false, false);
    r := cache.LoadForWrite(path, false, false);
  }
}
