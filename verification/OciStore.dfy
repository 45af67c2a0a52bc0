/**
  The transitions as the store runs them: loops over one transaction's rows that update the maps in
  place and append to the journal.
*/
module OciStore {
  import opened Common
  import opened OciTrash
  import opened OciJournal

  class Store {
    var live: map<TagKey, Digest>
    var tagTrash: map<TagKey, TagTrash>
    var manifestTrash: map<ManifestKey, ManifestTrash>
    var members: set<ManifestKey>
    var manifests: set<Digest>
    var journal: seq<OciMutation>
    /** Every transition run so far, and whether the outbox was on for all of them. */
    ghost var history: seq<Op>
    ghost var recorded: bool

    ghost function Value(): Rows
      reads this
    {
      Rows(live, tagTrash, manifestTrash, members, manifests)
    }

    ghost predicate Valid()
      reads this
    {
      && Inv(Value())
      && ValidRun(history) && Value() == StateAfter(history)
      && (recorded ==> journal == Journal(history))
    }

    constructor ()
      ensures Valid() && Value() == EMPTY && journal == [] && history == [] && recorded
    {
      live, tagTrash, manifestTrash, members, manifests, journal := map[], map[], map[], {}, {}, [];
      history, recorded := [], true;
    }

    /** The rows are those of the history with one more transition, and so is the journal while all are recorded. */
    ghost predicate Extends(before: seq<Op>, was: bool, op: Op, outbox: bool)
      reads this
    {
      history == before + [op] && recorded == (was && (outbox || op.MirrorOp?))
    }

    /**
      A replica that folds the journal has exactly this store's live, trashed and captured tags on every
      index no mirror run filled, whatever transitions the store has been through with its outbox on.
    */
    lemma Replicates(hosted: set<string>)
      requires Valid() && recorded
      requires forall i :: 0 <= i < |history| && history[i].MirrorOp? ==> history[i].mk.index !in hosted
      ensures AgreeOn(Replay(journal), ViewOf(Value()), hosted)
      ensures var v := Replay(journal);
        && (forall k: TagKey :: k.index in hosted ==> (k in v.live <==> k in live) && (k in live ==> v.live[k] == live[k]))
        && (forall k: TagKey :: k.index in hosted ==>
              (k in v.trashed <==> k in tagTrash) && (k in tagTrash ==> v.trashed[k] == tagTrash[k].digest))
        && (forall mk: ManifestKey :: mk.index in hosted ==>
              && (mk in v.captured <==> mk in manifestTrash)
              && (mk in manifestTrash ==> v.captured[mk] == manifestTrash[mk].tags))
    {
      JournalRebuilds(history, hosted);
      AgreeingRows(Replay(journal), Value(), hosted);
    }

    /** Append a transition to the history. */
    ghost method Note(op: Op, outbox: bool, was: Rows, entries: seq<OciMutation>)
      requires ValidRun(history) && was == StateAfter(history) && ValidOp(was, op)
      requires Value() == Step(was, op) && Inv(Value())
      requires recorded && (outbox || op.MirrorOp?) ==> entries == Journal(history) && journal == entries + Emitted(was, op)
      modifies this`history, this`recorded
      ensures Valid() && Extends(old(history), old(recorded), op, outbox)
    {
      assert (history + [op])[..|history|] == history;
      history := history + [op];
      recorded := recorded && (outbox || op.MirrorOp?);
    }

    /** Append the entry in the transaction that wrote the rows, when the outbox is on. */
    method Record(outbox: bool, m: OciMutation)
      modifies this`journal
      ensures journal == old(journal) + if outbox then [m] else []
    {
      if outbox { journal := journal + [m]; }
    }

    /**
      Reports whether the publication changed a reference or the digest's membership, and whether it
      allocated: a tag that moved, or without a tag a digest new to the repository.
    */
    method PublishManifest(mk: ManifestKey, children: set<Digest>, tag: Option<string>, outbox: bool)
      returns (changed: bool, isNew: bool)
      requires Valid()
      modifies this
      ensures Valid() && Extends(old(history), old(recorded), PublishOp(mk, children, tag), outbox)
      ensures Value() == Publish(old(Value()), mk, children, tag)
      ensures journal == old(journal) + if outbox then Emitted(old(Value()), PublishOp(mk, children, tag)) else []
      ensures changed <==>
        mk !in old(members) || live != old(live) || tagTrash != old(tagTrash) || manifestTrash != old(manifestTrash)
      ensures isNew <==> if tag.Some? then live != old(live) else mk !in old(members)
    {
      hide Inv, StateAfter, ValidRun, Journal, Publish;
      PublishInv(Value(), mk, children, tag);
      ghost var was := Value();
      changed, isNew := PublishRows(mk, children, tag);
      Record(outbox, ManifestPublished(mk, tag));
      Note(PublishOp(mk, children, tag), outbox, was, old(journal));
    }

    method PublishRows(mk: ManifestKey, children: set<Digest>, tag: Option<string>) returns (changed: bool, isNew: bool)
      modifies this`live, this`tagTrash, this`manifestTrash, this`members, this`manifests
      ensures Value() == Publish(old(Value()), mk, children, tag)
      ensures changed <==>
        mk !in old(members) || live != old(live) || tagTrash != old(tagTrash) || manifestTrash != old(manifestTrash)
      ensures isNew <==> if tag.Some? then live != old(live) else mk !in old(members)
    {
      var inserted := mk !in members;
      RecordRows(mk, children);
      var restoredManifest := ClearRecord(mk);
      changed, isNew := inserted || restoredManifest, inserted;
      if tag.Some? {
        var restoredTag := ClearTrash(TagOf(mk, tag.value));
        isNew := PutTag(TagOf(mk, tag.value), mk.digest);
        changed := changed || restoredTag || isNew;
      }
    }

    /** Point a tag at a digest, reporting whether its target changed. */
    method PutTag(tk: TagKey, digest: Digest) returns (moved: bool)
      modifies this`live
      ensures live == old(live)[tk := digest] && (moved <==> live != old(live))
    {
      PutChanges(live, tk, digest);
      moved := tk !in live || live[tk] != digest;
      live := live[tk := digest];
    }

    method ClearTrash(tk: TagKey) returns (had: bool)
      modifies this`tagTrash
      ensures tagTrash == old(tagTrash) - {tk} && (had <==> tagTrash != old(tagTrash))
    {
      had := tk in tagTrash;
      if had { PutChanges(tagTrash, tk, tagTrash[tk]); }
      tagTrash := tagTrash - {tk};
    }

    method ClearRecord(mk: ManifestKey) returns (had: bool)
      modifies this`manifestTrash
      ensures manifestTrash == old(manifestTrash) - {mk} && (had <==> manifestTrash != old(manifestTrash))
    {
      had := mk in manifestTrash;
      if had { PutChanges(manifestTrash, mk, manifestTrash[mk]); }
      manifestTrash := manifestTrash - {mk};
    }

    method RecordRows(mk: ManifestKey, children: set<Digest>)
      modifies this`members, this`manifests
      ensures Value() == RecordManifest(old(Value()), mk, children)
    {
      manifests := manifests + {mk.digest};
      members := members + {mk};
      var left := children;
      while left != {}
        invariant left <= children && manifests == old(manifests) + {mk.digest}
        invariant members == old(members) + {mk}
                             + (set c | c in children - left :: ManifestKey(mk.index, mk.repo, c))
        decreases |left|
      {
        var child :| child in left;
        left := left - {child};
        members := members + {ManifestKey(mk.index, mk.repo, child)};
      }
      assert children - left == children;
    }

    /** Reports whether the manifest was published; the guard and the write share one transaction. */
    method RecordMirrored(consulted: seq<string>, mk: ManifestKey, children: set<Digest>, tag: Option<string>)
      returns (published: bool)
      requires Valid() && mk.index in consulted
      modifies this
      ensures Valid() && Extends(old(history), old(recorded), MirrorOp(consulted, mk, children, tag), false)
      ensures journal == old(journal)
      ensures published == !Hidden(old(Value()), consulted, mk.repo, tag, mk.digest)
      ensures Value() == MirrorPublish(old(Value()), consulted, mk, children, tag)
      ensures published <==> forall i :: 0 <= i < |consulted| ==>
        && ManifestKey(consulted[i], mk.repo, mk.digest) !in old(manifestTrash)
        && (tag.Some? ==> TagKey(consulted[i], mk.repo, tag.value) !in old(tagTrash))
      ensures tagTrash == old(tagTrash) && manifestTrash == old(manifestTrash)
      ensures published ==> Records(old(Value()), Value(), mk, children)
      ensures published && tag.Some? ==> live == old(live)[TagKey(mk.index, mk.repo, tag.value) := mk.digest]
      ensures !published ==> Value() == old(Value())
      ensures !published || tag.None? ==> live == old(live)
    {
      hide Inv, StateAfter, ValidRun, Journal, Records;
      MirrorPublishInv(Value(), consulted, mk, children, tag);
      MirrorRows(Value(), consulted, mk, children, tag);
      ghost var was := Value();
      for i := 0 to |consulted|
        invariant forall j :: 0 <= j < i ==> !HiddenBy(Value(), consulted[j], mk.repo, tag, mk.digest)
        invariant Value() == was && journal == old(journal) && history == old(history) && recorded == old(recorded)
      {
        if (tag.Some? && TagKey(consulted[i], mk.repo, tag.value) in tagTrash)
           || ManifestKey(consulted[i], mk.repo, mk.digest) in manifestTrash
        {
          assert HiddenBy(Value(), consulted[i], mk.repo, tag, mk.digest);
          Note(MirrorOp(consulted, mk, children, tag), false, was, old(journal));
          return false;
        }
      }
      RecordRows(mk, children);
      if tag.Some? { var _ := PutTag(TagOf(mk, tag.value), mk.digest); }
      Note(MirrorOp(consulted, mk, children, tag), false, was, old(journal));
      return true;
    }

    method MoveTagToTrash(tk: TagKey, info: TrashInfo, outbox: bool) returns (digest: Option<Digest>)
      requires Valid()
      modifies this
      ensures Valid() && Extends(old(history), old(recorded), TrashTagOp(tk, info), outbox)
      ensures Value() == TrashTag(old(Value()), tk, info)
      ensures journal == old(journal) + if outbox then Emitted(old(Value()), TrashTagOp(tk, info)) else []
      ensures digest == if tk in old(live) then Some(old(live)[tk]) else None
    {
      hide Inv, StateAfter, ValidRun, Journal;
      TrashTagInv(Value(), tk, info);
      ghost var was := Value();
      if tk !in live {
        Note(TrashTagOp(tk, info), outbox, was, journal);
        return None;
      }
      digest := Some(live[tk]);
      tagTrash := tagTrash[tk := TagTrash(live[tk], info)];
      live := live - {tk};
      Record(outbox, TagTrashed(tk, digest.value));
      Note(TrashTagOp(tk, info), outbox, was, old(journal));
    }

    /** The rows of one repository's tags, each once, in whatever order the scan yields them. */
    method ScanTags(index: string, repo: string) returns (tags: seq<string>)
      ensures Distinct(tags)
      ensures forall tag :: tag in tags <==> TagKey(index, repo, tag) in live
    {
      tags := [];
      var left := live.Keys;
      while left != {}
        invariant left <= live.Keys && Distinct(tags)
        invariant forall tag :: tag in tags <==> TagKey(index, repo, tag) in live.Keys - left
        decreases |left|
      {
        var tk :| tk in left;
        left := left - {tk};
        if tk.index == index && tk.repo == repo {
          assert tk == TagKey(index, repo, tk.tag);
          tags := tags + [tk.tag];
        }
      }
    }

    /** `tags` is what the scan captured. */
    method MoveManifestToTrash(mk: ManifestKey, info: TrashInfo, outbox: bool)
      returns (count: Option<nat>, ghost tags: seq<string>)
      requires Valid()
      modifies this
      ensures Valid() && Extends(old(history), old(recorded), TrashManifestOp(mk, info, tags), outbox)
      ensures count.Some? ==> ScanOrder(old(Value()), mk, tags)
      ensures Value() == TrashManifest(old(Value()), mk, info, tags)
      ensures journal == old(journal) + if outbox then Emitted(old(Value()), TrashManifestOp(mk, info, tags)) else []
      ensures count == if Trashable(old(Value()), mk) then Some(|tags|) else None
    {
      hide Inv, StateAfter, ValidRun, Journal;
      if mk in manifestTrash || mk !in members || mk.digest !in manifests {
        Note(TrashManifestOp(mk, info, []), outbox, Value(), journal);
        return None, [];
      }
      var all := ScanTags(mk.index, mk.repo);
      ghost var was := Value();
      var captured := CaptureTags(mk, info, all);
      tags := captured;
      TrashManifestInv(was, mk, info, tags);
      manifestTrash := manifestTrash[mk := ManifestTrash(info, captured)];
      Record(outbox, ManifestTrashed(mk, captured));
      Note(TrashManifestOp(mk, info, tags), outbox, was, old(journal));
      count := Some(|captured|);
    }

    /** Move each scanned tag that points at the digest into the trash. */
    method CaptureTags(mk: ManifestKey, info: TrashInfo, all: seq<string>) returns (captured: seq<string>)
      requires Distinct(all) && forall t :: t in all ==> TagOf(mk, t) in live
      modifies this`live, this`tagTrash
      ensures Distinct(captured)
      ensures forall t :: t in captured <==> t in all && old(live)[TagOf(mk, t)] == mk.digest
      ensures Value() == MoveTags(old(Value()), mk, info, captured)
    {
      captured := [];
      ghost var was := Value();
      for i := 0 to |all|
        invariant Distinct(captured)
        invariant forall t :: t in captured <==> t in all[..i] && was.live[TagOf(mk, t)] == mk.digest
        invariant Value() == MoveTags(was, mk, info, captured)
      {
        var tk := TagOf(mk, all[i]);
        assert all[..i + 1] == all[..i] + [all[i]];
        assert all[i] in all && all[i] !in all[..i];
        assert tk !in KeysOf(mk, captured);
        if live[tk] == mk.digest {
          MoveTagsAppend(was, mk, info, captured, all[i]);
          tagTrash := tagTrash[tk := TagTrash(mk.digest, info)];
          live := live - {tk};
          captured := captured + [all[i]];
        }
      }
      assert all[..|all|] == all;
    }

    method RestoreOneTag(tk: TagKey, outbox: bool) returns (digest: Option<Digest>)
      requires Valid()
      modifies this
      ensures Valid() && Extends(old(history), old(recorded), RestoreTagOp(tk), outbox)
      ensures Value() == RestoreTag(old(Value()), tk)
      ensures journal == old(journal) + if outbox then Emitted(old(Value()), RestoreTagOp(tk)) else []
      ensures digest == if tk in old(tagTrash) then Some(old(tagTrash)[tk].digest) else None
    {
      hide Inv, StateAfter, ValidRun, Journal;
      RestoreTagInv(Value(), tk);
      ghost var was := Value();
      if tk !in tagTrash {
        Note(RestoreTagOp(tk), outbox, was, journal);
        return None;
      }
      var d := tagTrash[tk].digest;
      live := live[tk := d];
      tagTrash := tagTrash - {tk};
      ReleaseTrashedTag(ManifestOf(tk, d), tk.tag);
      Record(outbox, TagRestored(tk, d));
      Note(RestoreTagOp(tk), outbox, was, old(journal));
      digest := Some(d);
    }

    /** Retain the captured tags other than `tag`; clear the record with the last of them. */
    method ReleaseTrashedTag(mk: ManifestKey, tag: string)
      modifies this`manifestTrash
      ensures manifestTrash == Release(old(manifestTrash), mk, tag)
    {
      if mk !in manifestTrash { return; }
      var tags := manifestTrash[mk].tags;
      var kept := Retain(tags, tag);
      if |kept| == |tags| { return; }
      if kept == [] {
        manifestTrash := manifestTrash - {mk};
      } else {
        manifestTrash := manifestTrash[mk := manifestTrash[mk].(tags := kept)];
      }
    }

    static method Retain(tags: seq<string>, tag: string) returns (kept: seq<string>)
      ensures kept == Without(tags, tag)
    {
      kept := [];
      for i := 0 to |tags|
        invariant kept == Without(tags[..i], tag)
      {
        assert tags[..i + 1][..i] == tags[..i];
        if tags[i] != tag { kept := kept + [tags[i]]; }
      }
      assert tags[..|tags|] == tags;
    }

    method RestoreDigest(mk: ManifestKey, outbox: bool) returns (found: bool, restored: seq<string>, conflicts: seq<string>)
      requires Valid()
      modifies this
      ensures Valid() && Extends(old(history), old(recorded), RestoreManifestOp(mk), outbox)
      ensures Value() == RestoreManifest(old(Value()), mk)
      ensures journal == old(journal) + if outbox then Emitted(old(Value()), RestoreManifestOp(mk)) else []
      ensures found == (mk in old(manifestTrash))
      ensures found ==> restored == Restored(old(Value()), mk) && conflicts == Conflicts(old(Value()), mk)
    {
      assert mk in manifestTrash ==> CapturedOk(Value(), mk);
      hide Inv, StateAfter, ValidRun, Journal;
      RestoreManifestInv(Value(), mk);
      ghost var was := Value();
      if mk !in manifestTrash {
        Note(RestoreManifestOp(mk), outbox, was, journal);
        return false, [], [];
      }
      restored, conflicts := RelightFree(mk, manifestTrash[mk].tags);
      manifestTrash := manifestTrash - {mk};
      Record(outbox, ManifestRestored(mk, restored));
      Note(RestoreManifestOp(mk), outbox, was, old(journal));
      found := true;
    }

    /** Relight each captured tag whose live slot is free; a taken slot is a conflict. */
    method RelightFree(mk: ManifestKey, tags: seq<string>) returns (restored: seq<string>, conflicts: seq<string>)
      requires Distinct(tags)
      modifies this`live, this`tagTrash
      ensures restored == FreeTags(old(live), mk, tags)
      ensures conflicts == Slots(old(live), mk, tags, true)
      ensures Value() == RelightTags(old(Value()), mk, restored)
    {
      restored, conflicts := [], [];
      ghost var was := Value();
      NothingRelit(was, mk);
      hide RelightTags, KeysOf, Slots;
      assert tags[..0] == [];
      for i := 0 to |tags|
        invariant restored == FreeTags(was.live, mk, tags[..i])
        invariant conflicts == Slots(was.live, mk, tags[..i], true)
        invariant Value() == RelightTags(was, mk, restored)
      {
        assert tags[..i + 1] == tags[..i] + [tags[i]];
        SlotsAppend(was.live, mk, tags[..i], tags[i], true);
        SlotsAppend(was.live, mk, tags[..i], tags[i], false);
        assert tags[i] !in tags[..i];
        RelightKeepsOthers(was, mk, tags[..i], tags[i]);
        if TagOf(mk, tags[i]) in live {
          conflicts := conflicts + [tags[i]];
        } else {
          RelightTagsAppend(was, mk, restored, tags[i]);
          Relight(TagOf(mk, tags[i]), mk.digest);
          restored := restored + [tags[i]];
        }
      }
      assert tags[..|tags|] == tags;
    }

    method Relight(tk: TagKey, digest: Digest)
      modifies this`live, this`tagTrash
      ensures live == old(live)[tk := digest] && tagTrash == old(tagTrash) - {tk}
    {
      live := live[tk := digest];
      tagTrash := tagTrash - {tk};
    }
  }

  lemma PutChanges<K, V>(m: map<K, V>, k: K, v: V)
    ensures m[k := v] != m <==> k !in m || m[k] != v
    ensures m - {k} != m <==> k in m
  {
    assert m[k := v][k] == v;
    assert k !in m - {k};
  }

  lemma NothingRelit(s: Rows, mk: ManifestKey)
    ensures RelightTags(s, mk, []) == s && forall taken :: Slots(s.live, mk, [], taken) == []
  {
    assert KeysOf(mk, []) == {};
    assert s.tagTrash - {} == s.tagTrash;
  }

  /** Relighting earlier captured tags does not take the slot of a later one. */
  lemma RelightKeepsOthers(s: Rows, mk: ManifestKey, tags: seq<string>, tag: string)
    requires tag !in tags
    ensures TagOf(mk, tag) in RelightTags(s, mk, FreeTags(s.live, mk, tags)).live <==> TagOf(mk, tag) in s.live
  {
    SlotsMembers(s.live, mk, tags, false);
    assert TagOf(mk, tag) !in KeysOf(mk, FreeTags(s.live, mk, tags));
  }
}
