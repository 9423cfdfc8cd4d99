/** What a project purge hands over for remote deletion (server-attachments.ts, server.ts). */
module ProjectPurge {
  import opened Wrappers
  import opened JsMaps
  import opened Attachments

  // ---- keys that stay ----

  ghost predicate Retains(o: Owner, key: string) {
    !o.purged && exists i :: 0 <= i < |o.attachments| && CloudKey(o.attachments[i]) == Some(key)
  }

  ghost predicate IsRetained(projects: seq<Owner>, tasks: seq<Owner>, purgedId: string, key: string) {
    (exists i :: 0 <= i < |projects| && projects[i].id != purgedId && Retains(projects[i], key))
    || exists i :: 0 <= i < |tasks| && Retains(tasks[i], key)
  }

  method KeysOf(o: Owner, keys0: set<string>) returns (keys: set<string>)
    requires !o.purged
    ensures forall k :: k in keys <==> k in keys0 || Retains(o, k)
  {
    hide CloudKey;
    keys := keys0;
    for i := 0 to |o.attachments|
      invariant forall k :: k in keys <==> k in keys0 || exists j :: 0 <= j < i && CloudKey(o.attachments[j]) == Some(k)
    {
      var cloudKey := CloudKey(o.attachments[i]);
      if cloudKey.Some? { keys := keys + {cloudKey.value}; }
    }
  }

  lemma PurgedRetainsNothing(o: Owner)
    requires o.purged
    ensures forall k :: !Retains(o, k)
  {
  }

  /** collectRetainedAttachmentCloudKeysForProjectPurge. */
  method CollectRetained(projects: seq<Owner>, tasks: seq<Owner>, purgedId: string) returns (keys: set<string>)
    ensures forall k :: k in keys <==> IsRetained(projects, tasks, purgedId, k)
  {
    hide Retains;
    keys := {};
    for i := 0 to |projects|
      invariant forall k :: k in keys <==> exists j :: 0 <= j < i && projects[j].id != purgedId && Retains(projects[j], k)
    {
      if projects[i].id == purgedId || projects[i].purged {
        if projects[i].purged { PurgedRetainsNothing(projects[i]); }
        continue;
      }
      keys := KeysOf(projects[i], keys);
    }
    ghost var ofProjects := keys;
    for i := 0 to |tasks|
      invariant forall k :: k in keys <==> k in ofProjects || exists j :: 0 <= j < i && Retains(tasks[j], k)
    {
      if tasks[i].purged {
        PurgedRetainsNothing(tasks[i]);
        continue;
      }
      keys := KeysOf(tasks[i], keys);
    }
  }

  ghost predicate NoRepeats(keys: seq<string>) { forall i, j :: 0 <= i < j < |keys| ==> keys[i] != keys[j] }

  /** collectPendingRemoteDeletesForProjectPurge: the keys of the project that nothing else retains, each once. */
  method CollectPending(project: Owner, projects: seq<Owner>, tasks: seq<Owner>) returns (pending: seq<string>)
    ensures NoRepeats(pending)
    ensures forall k :: k in pending <==>
              (exists i :: 0 <= i < |project.attachments| && CloudKey(project.attachments[i]) == Some(k))
              && !IsRetained(projects, tasks, project.id, k)
  {
    hide CloudKey, IsRetained;
    var retained := CollectRetained(projects, tasks, project.id);
    var byKey: JsMap<string, string> := Empty();
    for i := 0 to |project.attachments|
      invariant byKey.Valid() && forall k :: k in byKey.at ==> byKey.at[k] == k
      invariant forall k :: k in byKey.at <==>
                  (exists j :: 0 <= j < i && CloudKey(project.attachments[j]) == Some(k)) && k !in retained
    {
      var cloudKey := CloudKey(project.attachments[i]);
      if cloudKey.None? || cloudKey.value in retained || byKey.Has(cloudKey.value) { continue; }
      byKey := byKey.Set(cloudKey.value, cloudKey.value);
    }
    pending := byKey.Values();
    assert pending == byKey.keys;
  }

  /** Whatever a live attachment still names after the purge was retained. */
  lemma ReferencedIsRetained(projects: seq<Owner>, tasks: seq<Owner>, at: nat, tombstone: Owner, k: string)
    requires at < |projects| && tombstone.purged
    requires forall i :: 0 <= i < |projects| && i != at && projects[i].id == projects[at].id ==> projects[i].purged
    requires k in Normalized(LiveKeys(tasks + projects[at := tombstone]))
    ensures IsRetained(projects, tasks, projects[at].id, k)
  {
    var after := projects[at := tombstone];
    var n := SomeoneNames(tasks + after, k);
    if n >= |tasks| {
      assert (tasks + after)[n] == after[n - |tasks|];
      assert Retains(after[n - |tasks|], k);
    }
  }

  lemma SomeoneNames(owners: seq<Owner>, k: string) returns (n: nat)
    requires k in Normalized(LiveKeys(owners))
    ensures n < |owners| && Retains(owners[n], k)
  {
    var c :| c in LiveKeys(owners) && NormalizesTo(c, k);
    var o, a :| o in owners && a in o.attachments && Names(o, a) && a.cloudKey == c;
    n :| n < |owners| && owners[n] == o;
    NamingRetains(o, a, k);
  }

  lemma NamingRetains(o: Owner, a: Attachment, k: string)
    requires a in o.attachments && Names(o, a) && NormalizesTo(a.cloudKey, k)
    ensures Retains(o, k)
  {
    var j :| 0 <= j < |o.attachments| && o.attachments[j] == a;
    assert CloudKey(o.attachments[j]) == Some(k);
  }

  /** No key still referenced after the purge is up for deletion. */
  lemma PendingIsUnreferenced(projects: seq<Owner>, tasks: seq<Owner>, at: nat, tombstone: Owner, pending: seq<string>)
    requires at < |projects| && tombstone.purged
    // ids are unique among projects that are not purged
    requires forall i :: 0 <= i < |projects| && i != at && projects[i].id == projects[at].id ==> projects[i].purged
    requires forall k :: k in pending ==> !IsRetained(projects, tasks, projects[at].id, k)
    ensures forall k :: k in pending ==> k !in Normalized(LiveKeys(tasks + projects[at := tombstone]))
  {
    forall k | k in Normalized(LiveKeys(tasks + projects[at := tombstone])) ensures k !in pending {
      ReferencedIsRetained(projects, tasks, at, tombstone, k);
    }
  }

  predicate NormalizesTo(raw: string, key: string) { Keys.Normalize(raw) == Some(key) }

  // ---- appending to the settings ----

  /** `rest` stands for what else an entry records. */
  datatype Pending<X> = Pending(cloudKey: string, rest: X)

  type Ledger<X> = m: JsMap<string, Pending<X>> | KeyedBySelf(m) witness JsMap([], map[])

  ghost predicate KeyedBySelf<X>(m: JsMap<string, Pending<X>>) {
    m.Valid() && forall k :: k in m.at ==> m.at[k].cloudKey == k
  }

  ghost function AllSet<X>(entries: seq<Pending<X>>): Ledger<X> {
    if entries == [] then JsMap([], map[])
    else
      var last := entries[|entries| - 1];
      AllSet(entries[..|entries| - 1]).Set(last.cloudKey, last)
  }

  ghost function AddedAbsent<X>(m: Ledger<X>, entries: seq<Pending<X>>): Ledger<X> {
    if entries == [] then m
    else
      var last, before := entries[|entries| - 1], AddedAbsent(m, entries[..|entries| - 1]);
      if before.Has(last.cloudKey) then before else before.Set(last.cloudKey, last)
  }

  ghost function Appended<X>(existing: Option<seq<Pending<X>>>, pending: seq<Pending<X>>): Option<seq<Pending<X>>> {
    if pending == [] then existing
    else Some(AddedAbsent(AllSet(if existing.Some? then existing.value else []), pending).Values())
  }

  /** appendPendingRemoteAttachmentDeletes, on settings.attachments.pendingRemoteDeletes. */
  method AppendPending<X>(existing: Option<seq<Pending<X>>>, pending: seq<Pending<X>>) returns (r: Option<seq<Pending<X>>>)
    ensures r == Appended(existing, pending)
  {
    if |pending| == 0 { return existing; }
    var list := if existing.Some? then existing.value else [];
    var byKey: JsMap<string, Pending<X>> := Empty();
    for i := 0 to |list|
      invariant byKey == AllSet(list[..i])
    {
      assert list[..i + 1][..i] == list[..i];
      byKey := byKey.Set(list[i].cloudKey, list[i]);
    }
    assert list[..|list|] == list;
    for i := 0 to |pending|
      invariant byKey == AddedAbsent(AllSet(list), pending[..i])
    {
      assert pending[..i + 1][..i] == pending[..i];
      if byKey.Has(pending[i].cloudKey) { continue; }
      byKey := byKey.Set(pending[i].cloudKey, pending[i]);
    }
    assert pending[..|pending|] == pending;
    r := Some(byKey.Values());
  }

  ghost function KeysIn<X>(entries: seq<Pending<X>>): set<string> { set e | e in entries :: e.cloudKey }

  lemma {:induction false} AllSetKeys<X>(entries: seq<Pending<X>>)
    ensures AllSet(entries).at.Keys == KeysIn(entries)
  {
    if entries != [] {
      var n := |entries| - 1;
      AllSetKeys(entries[..n]);
      assert entries == entries[..n] + [entries[n]];
      assert forall e :: e in entries <==> e in entries[..n] || e == entries[n];
    }
  }

  lemma {:induction false} AddedAbsentKeys<X>(m: Ledger<X>, entries: seq<Pending<X>>)
    ensures AddedAbsent(m, entries).at.Keys == m.at.Keys + KeysIn(entries)
    ensures forall k :: k in m.at ==> AddedAbsent(m, entries).at[k] == m.at[k]
  {
    if entries != [] {
      var n := |entries| - 1;
      AddedAbsentKeys(m, entries[..n]);
      assert entries == entries[..n] + [entries[n]];
      assert forall e :: e in entries <==> e in entries[..n] || e == entries[n];
    }
  }

  lemma AllSetMore<X>(entries: seq<Pending<X>>, e: Pending<X>)
    ensures AllSet(entries + [e]) == AllSet(entries).Set(e.cloudKey, e)
  {
    assert (entries + [e])[..|entries|] == entries;
  }

  /** The first n entries of a ledger. */
  ghost function Front<X>(m: Ledger<X>, n: nat): JsMap<string, Pending<X>>
    requires n <= |m.keys|
  {
    JsMap(m.keys[..n], map k | k in m.keys[..n] :: m.at[k])
  }

  lemma FrontMore<X>(m: Ledger<X>, n: nat)
    requires n < |m.keys|
    ensures Front(m, n).Valid() && Front(m, n).Set(m.keys[n], m.at[m.keys[n]]) == Front(m, n + 1)
  {
    var k := m.keys[n];
    assert k !in m.keys[..n];
    assert m.keys[..n + 1] == m.keys[..n] + [k];
    assert (map x | x in m.keys[..n] :: m.at[x])[k := m.at[k]] == map x | x in m.keys[..n + 1] :: m.at[x];
  }

  /** Writing a ledger out and reading it back gives the same ledger. */
  lemma {:induction false} ReadBack<X>(m: Ledger<X>, n: nat)
    requires n <= |m.keys|
    ensures AllSet(m.Values()[..n]) == Front(m, n)
  {
    if n == 0 {
      assert m.keys[..0] == [];
    } else {
      ReadBack(m, n - 1);
      FrontMore(m, n - 1);
      var e := m.Values()[n - 1];
      assert m.Values()[..n] == m.Values()[..n - 1] + [e];
      AllSetMore(m.Values()[..n - 1], e);
      assert e == m.at[m.keys[n - 1]] && e.cloudKey == m.keys[n - 1];
    }
  }

  lemma ReadBackWhole<X>(m: Ledger<X>)
    ensures AllSet(m.Values()) == m
  {
    ReadBack(m, |m.keys|);
    assert m.Values()[..|m.keys|] == m.Values() && m.keys[..|m.keys|] == m.keys;
    assert Front(m, |m.keys|).at == m.at;
  }

  lemma {:induction false} NothingAbsent<X>(m: Ledger<X>, entries: seq<Pending<X>>)
    requires KeysIn(entries) <= m.at.Keys
    ensures AddedAbsent(m, entries) == m
  {
    if entries != [] {
      var n := |entries| - 1;
      assert entries[n] in entries && entries[n].cloudKey in KeysIn(entries);
      assert KeysIn(entries[..n]) <= KeysIn(entries);
      NothingAbsent(m, entries[..n]);
    }
  }

  lemma ValuesKeys<X>(m: Ledger<X>)
    ensures KeysIn(m.Values()) == m.at.Keys
  {
    forall k ensures k in KeysIn(m.Values()) <==> k in m.at {
      if k in m.at {
        assert k in m.keys;
        var i :| 0 <= i < |m.keys| && m.keys[i] == k;
        assert m.Values()[i] in m.Values() && m.Values()[i].cloudKey == k;
      }
    }
  }

  /** Appending yields the union of the keys, keeps the entries that were there, and is idempotent. */
  lemma AppendIsAnIdempotentUnion<X>(existing: Option<seq<Pending<X>>>, pending: seq<Pending<X>>)
    requires pending != []
    ensures var once := Appended(existing, pending);
            && once.Some? && KeysIn(once.value) == KeysIn(if existing.Some? then existing.value else []) + KeysIn(pending)
            && NoRepeats(seq(|once.value|, i requires 0 <= i < |once.value| => once.value[i].cloudKey))
            && Appended(once, pending) == once
  {
    hide AllSet, AddedAbsent, KeysIn;
    var list := if existing.Some? then existing.value else [];
    var m := AddedAbsent(AllSet(list), pending);
    AllSetKeys(list);
    AddedAbsentKeys(AllSet(list), pending);
    ValuesKeys(m);
    ReadBackWhole(m);
    NothingAbsent(m, pending);
    assert forall i :: 0 <= i < |m.keys| ==> m.Values()[i].cloudKey == m.keys[i];
  }
}
