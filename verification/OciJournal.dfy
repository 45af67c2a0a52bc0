/**
  The outbox: each hosted transition appends one mutation in the transaction that writes its rows, so
  a replica that folds the journal in serial order rebuilds the tags and their trash.
*/
module OciJournal {
  import opened Common
  import opened OciTrash

  datatype OciMutation =
    | ManifestPublished(mk: ManifestKey, tag: Option<string>)
    | TagTrashed(tk: TagKey, digest: Digest)
    | ManifestTrashed(mk: ManifestKey, tags: seq<string>)
    | TagRestored(tk: TagKey, digest: Digest)
    | ManifestRestored(mk: ManifestKey, tags: seq<string>)

  /** What a transition journals.  A transition that reports missing, and a mirror fill, append nothing. */
  function Emitted(s: Rows, op: Op): seq<OciMutation> {
    match op
    case PublishOp(mk, _, tag) => [ManifestPublished(mk, tag)]
    case MirrorOp(_, _, _, _) => []
    case TrashTagOp(tk, _) => if tk in s.live then [TagTrashed(tk, s.live[tk])] else []
    case TrashManifestOp(mk, _, tags) => if Trashable(s, mk) then [ManifestTrashed(mk, tags)] else []
    case RestoreTagOp(tk) => if tk in s.tagTrash then [TagRestored(tk, s.tagTrash[tk].digest)] else []
    case RestoreManifestOp(mk) => if mk in s.manifestTrash then [ManifestRestored(mk, Restored(s, mk))] else []
  }

  function Journal(ops: seq<Op>): seq<OciMutation> {
    if ops == [] then []
    else
      var before := ops[..|ops| - 1];
      Journal(before) + Emitted(StateAfter(before), ops[|ops| - 1])
  }

  /** The rows a replica rebuilds: everything but the deletion evidence. */
  datatype View = View(live: map<TagKey, Digest>, trashed: map<TagKey, Digest>, captured: map<ManifestKey, seq<string>>)

  const BLANK := View(map[], map[], map[])

  function DigestsOf(trash: map<TagKey, TagTrash>): map<TagKey, Digest> {
    map k | k in trash :: trash[k].digest
  }

  function ViewOf(s: Rows): View {
    View(
      s.live,
      DigestsOf(s.tagTrash),
      map mk | mk in s.manifestTrash :: s.manifestTrash[mk].tags)
  }

  /** Apply one mutation from its payload alone. */
  function Apply(v: View, m: OciMutation): View {
    match m
    case ManifestPublished(mk, tag) =>
      var v := v.(captured := v.captured - {mk});
      if tag.None? then v
      else v.(live := v.live[TagOf(mk, tag.value) := mk.digest], trashed := v.trashed - {TagOf(mk, tag.value)})
    case TagTrashed(tk, digest) =>
      v.(live := v.live - {tk}, trashed := v.trashed[tk := digest])
    case ManifestTrashed(mk, tags) =>
      v.(live := v.live - KeysOf(mk, tags),
         trashed := v.trashed + (map k | k in KeysOf(mk, tags) :: mk.digest),
         captured := v.captured[mk := tags])
    case TagRestored(tk, digest) =>
      v.(live := v.live[tk := digest],
         trashed := v.trashed - {tk},
         captured := Uncapture(v.captured, ManifestOf(tk, digest), tk.tag))
    case ManifestRestored(mk, tags) =>
      v.(live := v.live + (map k | k in KeysOf(mk, tags) :: mk.digest),
         trashed := v.trashed - KeysOf(mk, tags),
         captured := v.captured - {mk})
  }

  function Uncapture(captured: map<ManifestKey, seq<string>>, mk: ManifestKey, tag: string): map<ManifestKey, seq<string>> {
    if mk !in captured || tag !in captured[mk] then captured
    else
      var left := Without(captured[mk], tag);
      if left == [] then captured - {mk} else captured[mk := left]
  }

  function Replay(journal: seq<OciMutation>): View {
    if journal == [] then BLANK else Apply(Replay(journal[..|journal| - 1]), journal[|journal| - 1])
  }

  function At<K, V>(m: map<K, V>, k: K): Option<V> {
    if k in m then Some(m[k]) else None
  }

  /** The two views agree on every row of the given indexes. */
  ghost predicate AgreeOn(v: View, w: View, indexes: set<string>) {
    && (forall k: TagKey :: k.index in indexes ==> At(v.live, k) == At(w.live, k))
    && (forall k: TagKey :: k.index in indexes ==> At(v.trashed, k) == At(w.trashed, k))
    && (forall k: ManifestKey :: k.index in indexes ==> At(v.captured, k) == At(w.captured, k))
  }

  /** A replica that agrees has the same live tags, the same trashed tags with their digests, and the same captures. */
  lemma AgreeingRows(v: View, s: Rows, indexes: set<string>)
    requires AgreeOn(v, ViewOf(s), indexes)
    ensures forall k: TagKey :: k.index in indexes ==>
      (k in v.live <==> k in s.live) && (k in s.live ==> v.live[k] == s.live[k])
    ensures forall k: TagKey :: k.index in indexes ==>
      (k in v.trashed <==> k in s.tagTrash) && (k in s.tagTrash ==> v.trashed[k] == s.tagTrash[k].digest)
    ensures forall mk: ManifestKey :: mk.index in indexes ==>
      && (mk in v.captured <==> mk in s.manifestTrash)
      && (mk in s.manifestTrash ==> v.captured[mk] == s.manifestTrash[mk].tags)
  {
    forall k: TagKey | k.index in indexes
      ensures (k in v.live <==> k in s.live) && (k in s.live ==> v.live[k] == s.live[k])
      ensures (k in v.trashed <==> k in s.tagTrash) && (k in s.tagTrash ==> v.trashed[k] == s.tagTrash[k].digest)
    {
      assert At(v.live, k) == At(s.live, k);
      assert At(v.trashed, k) == At(DigestsOf(s.tagTrash), k);
    }
    forall mk: ManifestKey | mk.index in indexes
      ensures mk in v.captured <==> mk in s.manifestTrash
      ensures mk in s.manifestTrash ==> v.captured[mk] == s.manifestTrash[mk].tags
    {
      assert At(v.captured, mk) == At(ViewOf(s).captured, mk);
    }
  }

  lemma DigestsOfMoved(trash: map<TagKey, TagTrash>, keys: set<TagKey>, moved: TagTrash)
    ensures DigestsOf(trash + (map k | k in keys :: moved)) == DigestsOf(trash) + (map k | k in keys :: moved.digest)
  {
  }

  lemma TrashManifestEmitted(s: Rows, mk: ManifestKey, info: TrashInfo, tags: seq<string>)
    requires Trashable(s, mk)
    ensures Apply(ViewOf(s), ManifestTrashed(mk, tags)) == ViewOf(TrashManifest(s, mk, info, tags))
  {
    var v, w := Apply(ViewOf(s), ManifestTrashed(mk, tags)), ViewOf(TrashManifest(s, mk, info, tags));
    DigestsOfMoved(s.tagTrash, KeysOf(mk, tags), TagTrash(mk.digest, info));
    assert v.captured == w.captured;
  }

  lemma RestoreTagEmitted(s: Rows, tk: TagKey)
    requires tk in s.tagTrash
    ensures Apply(ViewOf(s), TagRestored(tk, s.tagTrash[tk].digest)) == ViewOf(RestoreTag(s, tk))
  {
    var v, w := Apply(ViewOf(s), TagRestored(tk, s.tagTrash[tk].digest)), ViewOf(RestoreTag(s, tk));
    assert v.trashed == w.trashed;
    assert v.captured == w.captured;
  }

  lemma RestoreManifestEmitted(s: Rows, mk: ManifestKey)
    requires mk in s.manifestTrash
    ensures Apply(ViewOf(s), ManifestRestored(mk, Restored(s, mk))) == ViewOf(RestoreManifest(s, mk))
  {
    var v, w := Apply(ViewOf(s), ManifestRestored(mk, Restored(s, mk))), ViewOf(RestoreManifest(s, mk));
    assert v.trashed == w.trashed;
    assert v.captured == w.captured;
  }

  lemma PublishEmitted(s: Rows, mk: ManifestKey, children: set<Digest>, tag: Option<string>)
    ensures Apply(ViewOf(s), ManifestPublished(mk, tag)) == ViewOf(Publish(s, mk, children, tag))
  {
    var v, w := Apply(ViewOf(s), ManifestPublished(mk, tag)), ViewOf(Publish(s, mk, children, tag));
    assert v.trashed == w.trashed;
    assert v.captured == w.captured;
  }

  lemma TrashTagEmitted(s: Rows, tk: TagKey, info: TrashInfo)
    requires tk in s.live
    ensures Apply(ViewOf(s), TagTrashed(tk, s.live[tk])) == ViewOf(TrashTag(s, tk, info))
  {
    assert Apply(ViewOf(s), TagTrashed(tk, s.live[tk])).trashed == ViewOf(TrashTag(s, tk, info)).trashed;
  }

  /** One mutation does to the view what its transition did to the rows. */
  lemma EmittedIsEnough(s: Rows, op: Op)
    requires !op.MirrorOp?
    ensures Emitted(s, op) == [] ==> Step(s, op) == s
    ensures Emitted(s, op) != [] ==>
      Emitted(s, op) == [Emitted(s, op)[0]] && Apply(ViewOf(s), Emitted(s, op)[0]) == ViewOf(Step(s, op))
  {
    match op
    case PublishOp(mk, children, tag) => PublishEmitted(s, mk, children, tag);
    case TrashTagOp(tk, info) => if tk in s.live { TrashTagEmitted(s, tk, info); }
    case TrashManifestOp(mk, info, tags) => if Trashable(s, mk) { TrashManifestEmitted(s, mk, info, tags); }
    case RestoreTagOp(tk) => if tk in s.tagTrash { RestoreTagEmitted(s, tk); }
    case RestoreManifestOp(mk) => if mk in s.manifestTrash { RestoreManifestEmitted(s, mk); }
  }

  /** What a mutation does to one row depends on that row alone. */
  lemma ApplyTagRow(v: View, w: View, m: OciMutation, k: TagKey)
    requires At(v.live, k) == At(w.live, k) && At(v.trashed, k) == At(w.trashed, k)
    ensures At(Apply(v, m).live, k) == At(Apply(w, m).live, k)
    ensures At(Apply(v, m).trashed, k) == At(Apply(w, m).trashed, k)
  {
  }

  lemma ApplyManifestRow(v: View, w: View, m: OciMutation, k: ManifestKey)
    requires At(v.captured, k) == At(w.captured, k)
    ensures At(Apply(v, m).captured, k) == At(Apply(w, m).captured, k)
  {
  }

  lemma ApplyAgrees(v: View, w: View, m: OciMutation, indexes: set<string>)
    requires AgreeOn(v, w, indexes)
    ensures AgreeOn(Apply(v, m), Apply(w, m), indexes)
  {
    var v', w' := Apply(v, m), Apply(w, m);
    forall k: TagKey | k.index in indexes
      ensures At(v'.live, k) == At(w'.live, k) && At(v'.trashed, k) == At(w'.trashed, k)
    {
      ApplyTagRow(v, w, m, k);
    }
    forall k: ManifestKey | k.index in indexes ensures At(v'.captured, k) == At(w'.captured, k) {
      ApplyManifestRow(v, w, m, k);
    }
  }

  /** A mirror fill changes rows of its own index only. */
  lemma MirrorIsLocal(s: Rows, op: Op, indexes: set<string>)
    requires op.MirrorOp? && op.mk.index !in indexes
    ensures AgreeOn(ViewOf(s), ViewOf(Step(s, op)), indexes)
  {
  }

  lemma {:induction false} ReplayAppend(journal: seq<OciMutation>, m: OciMutation)
    ensures Replay(journal + [m]) == Apply(Replay(journal), m)
  {
    assert (journal + [m])[..|journal|] == journal;
  }

  /**
    Journal sufficiency.  Over the indexes no mirror run fills, folding the journal rebuilds exactly the
    live tags, the trashed tags and the captured tags of the store.
  */
  lemma {:induction false} JournalRebuilds(ops: seq<Op>, hosted: set<string>)
    requires forall i :: 0 <= i < |ops| && ops[i].MirrorOp? ==> ops[i].mk.index !in hosted
    ensures AgreeOn(Replay(Journal(ops)), ViewOf(StateAfter(ops)), hosted)
  {
    if ops != [] {
      var before, op := ops[..|ops| - 1], ops[|ops| - 1];
      var s, j := StateAfter(before), Journal(before);
      JournalRebuilds(before, hosted);
      if op.MirrorOp? {
        assert j + [] == j;
        MirrorIsLocal(s, op, hosted);
      } else {
        EmittedIsEnough(s, op);
        if Emitted(s, op) == [] {
          assert j + [] == j;
        } else {
          var m := Emitted(s, op)[0];
          ReplayAppend(j, m);
          ApplyAgrees(Replay(j), ViewOf(s), m, hosted);
        }
      }
    }
  }

  /** Views that agree on every index are equal. */
  lemma AgreeEverywhere(v: View, w: View)
    requires forall index :: AgreeOn(v, w, {index})
    ensures v == w
  {
    forall k: TagKey ensures At(v.live, k) == At(w.live, k) && At(v.trashed, k) == At(w.trashed, k) {
      assert AgreeOn(v, w, {k.index});
    }
    forall k: ManifestKey ensures At(v.captured, k) == At(w.captured, k) {
      assert AgreeOn(v, w, {k.index});
    }
    SameRows(v.live, w.live);
    SameRows(v.trashed, w.trashed);
    SameRows(v.captured, w.captured);
  }

  lemma SameRows<K(!new), V>(m: map<K, V>, n: map<K, V>)
    requires forall k :: At(m, k) == At(n, k)
    ensures m == n
  {
    assert forall k :: k in m ==> At(m, k) == At(n, k) && k in n && m[k] == n[k];
    assert forall k :: k in n ==> At(m, k) == At(n, k) && k in m;
  }

  /** A store no mirror run fills is rebuilt whole. */
  lemma JournalRebuildsAll(ops: seq<Op>)
    requires forall i :: 0 <= i < |ops| ==> !ops[i].MirrorOp?
    ensures Replay(Journal(ops)) == ViewOf(StateAfter(ops))
  {
    forall index ensures AgreeOn(Replay(Journal(ops)), ViewOf(StateAfter(ops)), {index}) {
      JournalRebuilds(ops, {index});
    }
    AgreeEverywhere(Replay(Journal(ops)), ViewOf(StateAfter(ops)));
  }
}
