/**
  Tags, manifests and their trash in one OCI store.

  `Rows` holds the driver's key-value rows as maps keyed by the fields a key is built from.  Each
  transition is a function from rows to rows; `OciStore` runs the same transitions as loops over a
  transaction's rows and is proved to compute those functions.
*/
module OciTrash {
  import opened Common

  type Digest = string

  datatype TagKey = TagKey(index: string, repo: string, tag: string)
  datatype ManifestKey = ManifestKey(index: string, repo: string, digest: Digest)
  datatype TrashInfo = TrashInfo(deletedAt: int, actor: Option<string>, reason: Option<string>)
  datatype TagTrash = TagTrash(digest: Digest, info: TrashInfo)
  datatype ManifestTrash = ManifestTrash(info: TrashInfo, tags: seq<string>)

  datatype Rows = Rows(
    live: map<TagKey, Digest>,
    tagTrash: map<TagKey, TagTrash>,
    manifestTrash: map<ManifestKey, ManifestTrash>,
    members: set<ManifestKey>,
    manifests: set<Digest>
  )

  const EMPTY := Rows(map[], map[], map[], {}, {})

  // ---------------------------------------------------------------------------------------------
  // Keys
  // ---------------------------------------------------------------------------------------------

  function TagOf(mk: ManifestKey, tag: string): TagKey {
    TagKey(mk.index, mk.repo, tag)
  }

  function ManifestOf(tk: TagKey, digest: Digest): ManifestKey {
    ManifestKey(tk.index, tk.repo, digest)
  }

  /** `tk` is one of `tags` in the repository of `mk`. */
  predicate Among(tk: TagKey, mk: ManifestKey, tags: seq<string>) {
    tk.index == mk.index && tk.repo == mk.repo && tk.tag in tags
  }

  function KeysOf(mk: ManifestKey, tags: seq<string>): (keys: set<TagKey>)
    ensures forall k :: k in keys <==> Among(k, mk, tags)
  {
    var keys := set t | t in tags :: TagOf(mk, t);
    assert forall k :: Among(k, mk, tags) ==> k == TagOf(mk, k.tag);
    keys
  }

  /** `tags` lists every live tag of the repository that points at the digest, once, in some scan order. */
  ghost predicate ScanOrder(s: Rows, mk: ManifestKey, tags: seq<string>) {
    && Distinct(tags)
    && forall tag :: tag in tags <==> TagOf(mk, tag) in s.live && s.live[TagOf(mk, tag)] == mk.digest
  }

  function Without(tags: seq<string>, tag: string): (r: seq<string>)
    ensures forall t :: t in r <==> t in tags && t != tag
    ensures |r| <= |tags|
    ensures tag !in tags ==> r == tags
    ensures tag in tags ==> |r| < |tags|
  {
    if tags == [] then []
    else
      var before, last := tags[..|tags| - 1], tags[|tags| - 1];
      assert tags == before + [last];
      Without(before, tag) + if last == tag then [] else [last]
  }

  /** The tags whose live slot is taken, or free, in the order given. */
  function Slots(live: map<TagKey, Digest>, mk: ManifestKey, tags: seq<string>, taken: bool): seq<string> {
    if tags == [] then []
    else
      var before, tag := tags[..|tags| - 1], tags[|tags| - 1];
      Slots(live, mk, before, taken) + if (TagOf(mk, tag) in live) == taken then [tag] else []
  }

  lemma {:induction false} SlotsMembers(live: map<TagKey, Digest>, mk: ManifestKey, tags: seq<string>, taken: bool)
    ensures forall t :: t in Slots(live, mk, tags, taken) <==> t in tags && (TagOf(mk, t) in live) == taken
  {
    if tags != [] {
      var before, tag := tags[..|tags| - 1], tags[|tags| - 1];
      SlotsMembers(live, mk, before, taken);
      assert forall t :: t in tags <==> t in before || t == tag by { assert tags == before + [tag]; }
    }
  }

  /** The captured tags a restore can relight, in capture order. */
  function FreeTags(live: map<TagKey, Digest>, mk: ManifestKey, tags: seq<string>): seq<string> {
    Slots(live, mk, tags, false)
  }

  // ---------------------------------------------------------------------------------------------
  // Transitions
  // ---------------------------------------------------------------------------------------------

  /** Store a manifest and record it, and each child it names, as served by the repository. */
  function RecordManifest(s: Rows, mk: ManifestKey, children: set<Digest>): Rows {
    s.(members := s.members + {mk} + (set c | c in children :: ManifestKey(mk.index, mk.repo, c)),
       manifests := s.manifests + {mk.digest})
  }

  function Publish(s: Rows, mk: ManifestKey, children: set<Digest>, tag: Option<string>): Rows {
    var s := RecordManifest(s, mk, children);
    var s := s.(manifestTrash := s.manifestTrash - {mk});
    if tag.None? then s
    else
      var tk := TagOf(mk, tag.value);
      s.(tagTrash := s.tagTrash - {tk}, live := s.live[tk := mk.digest])
  }

  /** Some index already consulted hides the tag or the digest. */
  predicate Hidden(s: Rows, consulted: seq<string>, repo: string, tag: Option<string>, digest: Digest) {
    exists i :: 0 <= i < |consulted| && HiddenBy(s, consulted[i], repo, tag, digest)
  }

  predicate HiddenBy(s: Rows, index: string, repo: string, tag: Option<string>, digest: Digest) {
    || (tag.Some? && TagKey(index, repo, tag.value) in s.tagTrash)
    || ManifestKey(index, repo, digest) in s.manifestTrash
  }

  function MirrorPublish(s: Rows, consulted: seq<string>, mk: ManifestKey, children: set<Digest>, tag: Option<string>): Rows {
    if Hidden(s, consulted, mk.repo, tag, mk.digest) then s
    else
      var s := RecordManifest(s, mk, children);
      if tag.None? then s else s.(live := s.live[TagOf(mk, tag.value) := mk.digest])
  }

  function TrashTag(s: Rows, tk: TagKey, info: TrashInfo): Rows {
    if tk !in s.live then s
    else s.(tagTrash := s.tagTrash[tk := TagTrash(s.live[tk], info)], live := s.live - {tk})
  }

  predicate Trashable(s: Rows, mk: ManifestKey) {
    mk !in s.manifestTrash && mk in s.members && mk.digest in s.manifests
  }

  /** Move the listed tags into the trash at the digest of `mk`. */
  function MoveTags(s: Rows, mk: ManifestKey, info: TrashInfo, tags: seq<string>): Rows {
    s.(live := s.live - KeysOf(mk, tags),
       tagTrash := s.tagTrash + (map k | k in KeysOf(mk, tags) :: TagTrash(mk.digest, info)))
  }

  function TrashManifest(s: Rows, mk: ManifestKey, info: TrashInfo, tags: seq<string>): Rows {
    if !Trashable(s, mk) then s
    else MoveTags(s, mk, info, tags).(manifestTrash := s.manifestTrash[mk := ManifestTrash(info, tags)])
  }

  /** Drop a restored tag from its digest's record; the last captured tag takes the record with it. */
  function Release(records: map<ManifestKey, ManifestTrash>, mk: ManifestKey, tag: string): map<ManifestKey, ManifestTrash> {
    if mk !in records || tag !in records[mk].tags then records
    else
      var left := Without(records[mk].tags, tag);
      if left == [] then records - {mk} else records[mk := records[mk].(tags := left)]
  }

  function RestoreTag(s: Rows, tk: TagKey): Rows {
    if tk !in s.tagTrash then s
    else
      var digest := s.tagTrash[tk].digest;
      s.(live := s.live[tk := digest],
         tagTrash := s.tagTrash - {tk},
         manifestTrash := Release(s.manifestTrash, ManifestOf(tk, digest), tk.tag))
  }

  /** Point the listed tags at the digest of `mk` again. */
  function RelightTags(s: Rows, mk: ManifestKey, tags: seq<string>): Rows {
    s.(live := s.live + (map k | k in KeysOf(mk, tags) :: mk.digest),
       tagTrash := s.tagTrash - KeysOf(mk, tags))
  }

  function RestoreManifest(s: Rows, mk: ManifestKey): Rows {
    if mk !in s.manifestTrash then s
    else
      RelightTags(s, mk, FreeTags(s.live, mk, s.manifestTrash[mk].tags))
      .(manifestTrash := s.manifestTrash - {mk})
  }

  lemma SlotsAppend(live: map<TagKey, Digest>, mk: ManifestKey, tags: seq<string>, tag: string, taken: bool)
    ensures Slots(live, mk, tags + [tag], taken)
         == Slots(live, mk, tags, taken) + (if (TagOf(mk, tag) in live) == taken then [tag] else [])
  {
    assert (tags + [tag])[..|tags|] == tags;
  }

  lemma KeysAppend(mk: ManifestKey, tags: seq<string>, tag: string)
    ensures KeysOf(mk, tags + [tag]) == KeysOf(mk, tags) + {TagOf(mk, tag)}
  {
    forall k ensures k in KeysOf(mk, tags + [tag]) <==> k in KeysOf(mk, tags) || k == TagOf(mk, tag) {
      assert k.index == mk.index && k.repo == mk.repo ==> TagOf(mk, k.tag) == k;
    }
  }

  lemma MoveTagsAppend(s: Rows, mk: ManifestKey, info: TrashInfo, tags: seq<string>, tag: string)
    ensures var m, tk := MoveTags(s, mk, info, tags), TagOf(mk, tag);
      MoveTags(s, mk, info, tags + [tag])
      == m.(live := m.live - {tk}, tagTrash := m.tagTrash[tk := TagTrash(mk.digest, info)])
  {
    KeysAppend(mk, tags, tag);
    var keys, tk := KeysOf(mk, tags), TagOf(mk, tag);
    assert s.live - keys - {tk} == s.live - (keys + {tk});
    AddOneMore(s.tagTrash, keys, tk, TagTrash(mk.digest, info));
  }

  lemma RelightTagsAppend(s: Rows, mk: ManifestKey, tags: seq<string>, tag: string)
    ensures var m, tk := RelightTags(s, mk, tags), TagOf(mk, tag);
      RelightTags(s, mk, tags + [tag]) == m.(live := m.live[tk := mk.digest], tagTrash := m.tagTrash - {tk})
  {
    KeysAppend(mk, tags, tag);
    var keys, tk := KeysOf(mk, tags), TagOf(mk, tag);
    assert s.tagTrash - keys - {tk} == s.tagTrash - (keys + {tk});
    AddOneMore(s.live, keys, tk, mk.digest);
  }

  lemma AddOneMore<K, V>(m: map<K, V>, keys: set<K>, key: K, v: V)
    ensures (m + (map k | k in keys :: v))[key := v] == m + (map k | k in keys + {key} :: v)
  {
  }

  // ---------------------------------------------------------------------------------------------
  // What each transition does to the rows
  // ---------------------------------------------------------------------------------------------

  /** The manifest and its children are recorded in the repository, and nothing else is. */
  ghost predicate Records(s: Rows, n: Rows, mk: ManifestKey, children: set<Digest>) {
    && (forall m :: m in n.members <==>
          m in s.members || m == mk || (m.index == mk.index && m.repo == mk.repo && m.digest in children))
    && (forall d :: d in n.manifests <==> d in s.manifests || d == mk.digest)
  }

  /**
    A mirror run publishes exactly when no index consulted so far has that tag or that digest in its trash.
    Then the digest is recorded with its children and the tag points at it; no trash changes either way.
  */
  lemma MirrorRows(s: Rows, consulted: seq<string>, mk: ManifestKey, children: set<Digest>, tag: Option<string>)
    ensures var n := MirrorPublish(s, consulted, mk, children, tag);
      var published := forall i :: 0 <= i < |consulted| ==>
        && ManifestKey(consulted[i], mk.repo, mk.digest) !in s.manifestTrash
        && (tag.Some? ==> TagKey(consulted[i], mk.repo, tag.value) !in s.tagTrash);
      && n.tagTrash == s.tagTrash && n.manifestTrash == s.manifestTrash
      && (!published ==> n == s)
      && (published ==>
        && Records(s, n, mk, children)
        && n.live == if tag.Some? then s.live[TagKey(mk.index, mk.repo, tag.value) := mk.digest] else s.live)
  {
  }

  /** A publication takes the digest and the tag out of the trash and touches no other trash. */
  lemma PublishRows(s: Rows, mk: ManifestKey, children: set<Digest>, tag: Option<string>)
    ensures var n := Publish(s, mk, children, tag);
      && Records(s, n, mk, children)
      && n.manifestTrash == s.manifestTrash - {mk}
      && (tag.None? ==> n.live == s.live && n.tagTrash == s.tagTrash)
      && (tag.Some? ==> var tk := TagKey(mk.index, mk.repo, tag.value);
        n.live == s.live[tk := mk.digest] && n.tagTrash == s.tagTrash - {tk})
  {
  }

  /** The tag points at the digest of `mk`, in its repository. */
  predicate PointsAt(s: Rows, k: TagKey, mk: ManifestKey) {
    k.index == mk.index && k.repo == mk.repo && k in s.live && s.live[k] == mk.digest
  }

  /**
    Trashing a digest the repository serves and has not trashed moves exactly the tags that point at it into the
    trash, each with the digest and the deletion's evidence.  Nothing else changes, and nothing at all otherwise.
  */
  lemma TrashManifestRows(s: Rows, mk: ManifestKey, info: TrashInfo, tags: seq<string>)
    requires ScanOrder(s, mk, tags)
    ensures var n := TrashManifest(s, mk, info, tags);
      && n.members == s.members && n.manifests == s.manifests
      && (mk in s.manifestTrash || mk !in s.members || mk.digest !in s.manifests ==> n == s)
      && (mk !in s.manifestTrash && mk in s.members && mk.digest in s.manifests ==>
        && n.manifestTrash == s.manifestTrash[mk := ManifestTrash(info, tags)]
        && (forall k :: k in n.live <==> k in s.live && !PointsAt(s, k, mk))
        && (forall k :: k in n.live ==> n.live[k] == s.live[k])
        && (forall k :: k in n.tagTrash <==> k in s.tagTrash || PointsAt(s, k, mk))
        && (forall k :: k in n.tagTrash ==>
              n.tagTrash[k] == if PointsAt(s, k, mk) then TagTrash(mk.digest, info) else s.tagTrash[k]))
  {
    forall k ensures PointsAt(s, k, mk) <==> k in KeysOf(mk, tags) {
      assert k.index == mk.index && k.repo == mk.repo ==> TagOf(mk, k.tag) == k;
    }
  }

  /** Trashing a live tag moves it, its digest with it; a tag that is not live is left alone. */
  lemma TrashTagRows(s: Rows, tk: TagKey, info: TrashInfo)
    ensures var n := TrashTag(s, tk, info);
      && n.members == s.members && n.manifests == s.manifests && n.manifestTrash == s.manifestTrash
      && n.live == s.live - {tk}
      && (tk !in s.live ==> n.tagTrash == s.tagTrash)
      && (tk in s.live ==> n.tagTrash == s.tagTrash[tk := TagTrash(s.live[tk], info)])
  {
    assert tk !in s.live ==> s.live - {tk} == s.live;
  }

  lemma WithoutLast(tags: seq<string>, last: string, tag: string)
    ensures Without(tags + [last], tag) == Without(tags, tag) + if last == tag then [] else [last]
  {
    assert (tags + [last])[..|tags|] == tags;
  }

  lemma {:induction false} WithoutMiddle(before: seq<string>, tag: string, after: seq<string>)
    requires tag !in before && tag !in after
    ensures Without(before + [tag] + after, tag) == before + after
    decreases |after|
  {
    if after == [] {
      assert before + [tag] + after == before + [tag];
      WithoutLast(before, tag, tag);
    } else {
      var front, last := after[..|after| - 1], after[|after| - 1];
      assert before + [tag] + after == (before + [tag] + front) + [last];
      WithoutLast(before + [tag] + front, last, tag);
      WithoutMiddle(before, tag, front);
      assert before + front + [last] == before + after;
    }
  }

  /**
    Restoring a trashed tag points it at its digest again.  If that digest's record had captured it, the record
    loses that tag and keeps the others in order, and is cleared with the last of them.  Every other row stays.
  */
  lemma RestoreTagRows(s: Rows, tk: TagKey, before: seq<string>, after: seq<string>)
    requires tk in s.tagTrash && tk.tag !in before && tk.tag !in after
    ensures var n, digest := RestoreTag(s, tk), s.tagTrash[tk].digest;
      var mk := ManifestKey(tk.index, tk.repo, digest);
      && n.members == s.members && n.manifests == s.manifests
      && n.live == s.live[tk := digest] && n.tagTrash == s.tagTrash - {tk}
      && (forall m :: m != mk ==> (m in n.manifestTrash <==> m in s.manifestTrash))
      && (forall m :: m != mk && m in n.manifestTrash ==> n.manifestTrash[m] == s.manifestTrash[m])
      && (mk in s.manifestTrash && tk.tag !in s.manifestTrash[mk].tags ==> n.manifestTrash == s.manifestTrash)
      && (mk in s.manifestTrash && s.manifestTrash[mk].tags == before + [tk.tag] + after ==>
        if before + after == [] then mk !in n.manifestTrash
        else mk in n.manifestTrash && n.manifestTrash[mk] == ManifestTrash(s.manifestTrash[mk].info, before + after))
  {
    WithoutMiddle(before, tk.tag, after);
    assert tk.tag in before + [tk.tag] + after;
  }

  /** A tag of the repository that the record of `mk` captured. */
  ghost predicate Captured(s: Rows, k: TagKey, mk: ManifestKey)
    requires mk in s.manifestTrash
  {
    k.index == mk.index && k.repo == mk.repo && k.tag in s.manifestTrash[mk].tags
  }

  /**
    Restoring a digest clears its record and points each captured tag whose slot is free at it again, taking it
    out of the trash.  A captured tag whose slot is taken and every other tag stay as they are.
  */
  lemma RestoreManifestRows(s: Rows, mk: ManifestKey)
    ensures var n := RestoreManifest(s, mk);
      && n.members == s.members && n.manifests == s.manifests && n.manifestTrash == s.manifestTrash - {mk}
      && (mk !in s.manifestTrash ==> n == s)
      && (mk in s.manifestTrash ==>
        && (forall k :: k in n.live <==> k in s.live || Captured(s, k, mk))
        && (forall k :: k in n.live ==> n.live[k] == if k in s.live then s.live[k] else mk.digest)
        && (forall k :: k in n.tagTrash <==> k in s.tagTrash && (k in s.live || !Captured(s, k, mk)))
        && (forall k :: k in n.tagTrash ==> n.tagTrash[k] == s.tagTrash[k]))
  {
    if mk in s.manifestTrash {
      var tags := s.manifestTrash[mk].tags;
      SlotsMembers(s.live, mk, tags, false);
      forall k ensures k in KeysOf(mk, FreeTags(s.live, mk, tags)) <==> Captured(s, k, mk) && k !in s.live {
        assert k.index == mk.index && k.repo == mk.repo ==> TagOf(mk, k.tag) == k;
      }
    } else {
      assert s.manifestTrash - {mk} == s.manifestTrash;
    }
  }

  // ---------------------------------------------------------------------------------------------
  // The invariant of every reachable store
  // ---------------------------------------------------------------------------------------------

  /** Publishing a tag removes its trash record, so a record found means a free live slot. */
  ghost predicate LiveAndTrashedDisjoint(s: Rows) {
    forall k :: k in s.live ==> k !in s.tagTrash
  }

  ghost predicate CapturedOk(s: Rows, mk: ManifestKey)
    requires mk in s.manifestTrash
  {
    var tags := s.manifestTrash[mk].tags;
    && Distinct(tags)
    && forall tag :: tag in tags ==>
         var tk := TagOf(mk, tag);
         && (tk in s.live || tk in s.tagTrash)
         && !(tk in s.live && s.live[tk] == mk.digest)
  }

  /** Every digest a row names is a stored manifest of that repository. */
  ghost predicate Recorded(s: Rows) {
    && (forall k :: k in s.live ==> ManifestOf(k, s.live[k]) in s.members && s.live[k] in s.manifests)
    && (forall k :: k in s.tagTrash ==>
          ManifestOf(k, s.tagTrash[k].digest) in s.members && s.tagTrash[k].digest in s.manifests)
    && (forall mk :: mk in s.manifestTrash ==> mk in s.members && mk.digest in s.manifests)
  }

  ghost predicate Inv(s: Rows) {
    && LiveAndTrashedDisjoint(s)
    && (forall mk :: mk in s.manifestTrash ==> CapturedOk(s, mk))
    && Recorded(s)
  }

  datatype Op =
    | PublishOp(mk: ManifestKey, children: set<Digest>, tag: Option<string>)
    | MirrorOp(consulted: seq<string>, mk: ManifestKey, children: set<Digest>, tag: Option<string>)
    | TrashTagOp(tk: TagKey, info: TrashInfo)
    | TrashManifestOp(mk: ManifestKey, info: TrashInfo, tags: seq<string>)
    | RestoreTagOp(tk: TagKey)
    | RestoreManifestOp(mk: ManifestKey)

  function Step(s: Rows, op: Op): Rows {
    match op
    case PublishOp(mk, children, tag) => Publish(s, mk, children, tag)
    case MirrorOp(consulted, mk, children, tag) => MirrorPublish(s, consulted, mk, children, tag)
    case TrashTagOp(tk, info) => TrashTag(s, tk, info)
    case TrashManifestOp(mk, info, tags) => TrashManifest(s, mk, info, tags)
    case RestoreTagOp(tk) => RestoreTag(s, tk)
    case RestoreManifestOp(mk) => RestoreManifest(s, mk)
  }

  /** A manifest deletion captures exactly what its scan finds; a mirror run has consulted its own index. */
  ghost predicate ValidOp(s: Rows, op: Op) {
    match op
    case TrashManifestOp(mk, _, tags) => Trashable(s, mk) ==> ScanOrder(s, mk, tags)
    case MirrorOp(consulted, mk, _, _) => mk.index in consulted
    case _ => true
  }

  function StateAfter(ops: seq<Op>): Rows {
    if ops == [] then EMPTY else Step(StateAfter(ops[..|ops| - 1]), ops[|ops| - 1])
  }

  ghost predicate ValidRun(ops: seq<Op>) {
    ops != [] ==> ValidRun(ops[..|ops| - 1]) && ValidOp(StateAfter(ops[..|ops| - 1]), ops[|ops| - 1])
  }

  lemma {:induction false} DistinctWithout(tags: seq<string>, tag: string)
    requires Distinct(tags)
    ensures Distinct(Without(tags, tag))
  {
    if tags != [] {
      var before := tags[..|tags| - 1];
      DistinctWithout(before, tag);
      assert forall t :: t in Without(before, tag) ==> t in before;
      assert tags[|tags| - 1] !in before;
    }
  }

  lemma PublishInv(s: Rows, mk: ManifestKey, children: set<Digest>, tag: Option<string>)
    requires Inv(s)
    ensures Inv(Publish(s, mk, children, tag))
  {
    var s' := Publish(s, mk, children, tag);
    forall m | m in s'.manifestTrash ensures CapturedOk(s', m) { assert CapturedOk(s, m); }
  }

  lemma MirrorPublishInv(s: Rows, consulted: seq<string>, mk: ManifestKey, children: set<Digest>, tag: Option<string>)
    requires Inv(s) && mk.index in consulted
    ensures Inv(MirrorPublish(s, consulted, mk, children, tag))
  {
    var s' := MirrorPublish(s, consulted, mk, children, tag);
    if s' != s { assert !HiddenBy(s, mk.index, mk.repo, tag, mk.digest); }
    forall m | m in s'.manifestTrash ensures CapturedOk(s', m) { assert CapturedOk(s, m); }
  }

  lemma TrashTagInv(s: Rows, tk: TagKey, info: TrashInfo)
    requires Inv(s)
    ensures Inv(TrashTag(s, tk, info))
  {
    var s' := TrashTag(s, tk, info);
    forall m | m in s'.manifestTrash ensures CapturedOk(s', m) { assert CapturedOk(s, m); }
  }

  lemma TrashManifestInv(s: Rows, mk: ManifestKey, info: TrashInfo, tags: seq<string>)
    requires Inv(s) && (Trashable(s, mk) ==> ScanOrder(s, mk, tags))
    ensures Inv(TrashManifest(s, mk, info, tags))
  {
    var s' := TrashManifest(s, mk, info, tags);
    forall m | m in s'.manifestTrash ensures CapturedOk(s', m) {
      if m in s.manifestTrash { assert CapturedOk(s, m); }
      if m == mk { assert forall t :: t in tags ==> TagOf(mk, t) in KeysOf(mk, tags); }
    }
  }

  lemma RestoreTagInv(s: Rows, tk: TagKey)
    requires Inv(s)
    ensures Inv(RestoreTag(s, tk))
  {
    var s' := RestoreTag(s, tk);
    forall m | m in s'.manifestTrash ensures CapturedOk(s', m) {
      assert CapturedOk(s, m);
      DistinctWithout(s.manifestTrash[m].tags, tk.tag);
    }
  }

  lemma RestoreManifestInv(s: Rows, mk: ManifestKey)
    requires Inv(s)
    ensures Inv(RestoreManifest(s, mk))
  {
    var s' := RestoreManifest(s, mk);
    if mk in s.manifestTrash { SlotsMembers(s.live, mk, s.manifestTrash[mk].tags, false); }
    forall m | m in s'.manifestTrash ensures CapturedOk(s', m) { assert CapturedOk(s, m); }
  }

  lemma StepInv(s: Rows, op: Op)
    requires Inv(s) && ValidOp(s, op)
    ensures Inv(Step(s, op))
  {
    match op
    case PublishOp(mk, children, tag) => PublishInv(s, mk, children, tag);
    case MirrorOp(consulted, mk, children, tag) => MirrorPublishInv(s, consulted, mk, children, tag);
    case TrashTagOp(tk, info) => TrashTagInv(s, tk, info);
    case TrashManifestOp(mk, info, tags) => TrashManifestInv(s, mk, info, tags);
    case RestoreTagOp(tk) => RestoreTagInv(s, tk);
    case RestoreManifestOp(mk) => RestoreManifestInv(s, mk);
  }

  /** Every reachable store keeps the invariant. */
  lemma {:induction false} RunInv(ops: seq<Op>)
    requires ValidRun(ops)
    ensures Inv(StateAfter(ops))
  {
    if ops != [] {
      RunInv(ops[..|ops| - 1]);
      StepInv(StateAfter(ops[..|ops| - 1]), ops[|ops| - 1]);
    }
  }

  /** A reference is never lost: a tag that was live or trashed stays live or trashed. */
  lemma {:induction false} ReferencesNeverLost(ops: seq<Op>, n: nat)
    requires ValidRun(ops) && n <= |ops|
    ensures ValidRun(ops[..n])
    ensures var before, after := StateAfter(ops[..n]), StateAfter(ops);
      before.live.Keys + before.tagTrash.Keys <= after.live.Keys + after.tagTrash.Keys
  {
    if n < |ops| {
      var prefix := ops[..|ops| - 1];
      assert prefix[..n] == ops[..n];
      ReferencesNeverLost(prefix, n);
    } else {
      assert ops[..n] == ops;
    }
  }

  // ---------------------------------------------------------------------------------------------
  // Restoring undoes trashing
  // ---------------------------------------------------------------------------------------------

  /** The tags a restore reports as restored. */
  function Restored(s: Rows, mk: ManifestKey): seq<string>
    requires mk in s.manifestTrash
  {
    FreeTags(s.live, mk, s.manifestTrash[mk].tags)
  }

  /** The captured tags it reports as conflicts: another push took their live slot. */
  function Conflicts(s: Rows, mk: ManifestKey): seq<string>
    requires mk in s.manifestTrash
  {
    Slots(s.live, mk, s.manifestTrash[mk].tags, true)
  }

  lemma TrashThenRestoreTag(s: Rows, tk: TagKey, info: TrashInfo)
    requires Inv(s) && tk in s.live
    ensures RestoreTag(TrashTag(s, tk, info), tk) == s
  {
    var mk := ManifestOf(tk, s.live[tk]);
    if mk in s.manifestTrash {
      assert CapturedOk(s, mk);
      assert TagOf(mk, tk.tag) == tk;
    }
    assert s.live[tk := s.live[tk]] == s.live;
    assert s.tagTrash - {tk} == s.tagTrash;
  }

  lemma {:induction false} FreeWhenNoneLive(live: map<TagKey, Digest>, mk: ManifestKey, tags: seq<string>)
    requires forall t :: t in tags ==> TagOf(mk, t) !in live
    ensures FreeTags(live, mk, tags) == tags
  {
    if tags != [] {
      FreeWhenNoneLive(live, mk, tags[..|tags| - 1]);
    }
  }

  lemma RemoveThenAdd<K, V>(m: map<K, V>, keys: set<K>, v: V)
    requires forall k :: k in keys ==> k in m && m[k] == v
    ensures (m - keys) + (map k | k in keys :: v) == m
  {
  }

  lemma AddThenRemove<K, V>(m: map<K, V>, keys: set<K>, v: V)
    requires m.Keys !! keys
    ensures (m + (map k | k in keys :: v)) - keys == m
  {
  }

  lemma TrashThenRestoreManifest(s: Rows, mk: ManifestKey, info: TrashInfo, tags: seq<string>)
    requires Inv(s) && Trashable(s, mk) && ScanOrder(s, mk, tags)
    ensures Restored(TrashManifest(s, mk, info, tags), mk) == tags
    ensures RestoreManifest(TrashManifest(s, mk, info, tags), mk) == s
  {
    ScanKeys(s, mk, tags);
    TrashFreesTags(s, mk, info, tags);
    UndoTrashManifest(s, mk, info, tags);
  }

  lemma ScanKeys(s: Rows, mk: ManifestKey, tags: seq<string>)
    requires LiveAndTrashedDisjoint(s) && ScanOrder(s, mk, tags)
    ensures forall k :: k in KeysOf(mk, tags) ==> k in s.live && s.live[k] == mk.digest
    ensures s.tagTrash.Keys !! KeysOf(mk, tags)
  {
    forall k | k in KeysOf(mk, tags) ensures k in s.live && s.live[k] == mk.digest {
      assert TagOf(mk, k.tag) == k;
    }
  }

  lemma TrashFreesTags(s: Rows, mk: ManifestKey, info: TrashInfo, tags: seq<string>)
    requires Trashable(s, mk)
    ensures FreeTags(TrashManifest(s, mk, info, tags).live, mk, tags) == tags
  {
    var live := TrashManifest(s, mk, info, tags).live;
    forall t | t in tags ensures TagOf(mk, t) !in live { assert TagOf(mk, t) in KeysOf(mk, tags); }
    FreeWhenNoneLive(live, mk, tags);
  }

  lemma UndoTrashManifest(s: Rows, mk: ManifestKey, info: TrashInfo, tags: seq<string>)
    requires Trashable(s, mk)
    requires forall k :: k in KeysOf(mk, tags) ==> k in s.live && s.live[k] == mk.digest
    requires s.tagTrash.Keys !! KeysOf(mk, tags)
    requires FreeTags(TrashManifest(s, mk, info, tags).live, mk, tags) == tags
    ensures RestoreManifest(TrashManifest(s, mk, info, tags), mk) == s
  {
    RemoveThenAdd(s.live, KeysOf(mk, tags), mk.digest);
    AddThenRemove(s.tagTrash, KeysOf(mk, tags), TagTrash(mk.digest, info));
    assert s.manifestTrash[mk := ManifestTrash(info, tags)] - {mk} == s.manifestTrash;
  }

  /** Restore the tags one at a time, in the given order. */
  function RestoreEach(s: Rows, mk: ManifestKey, order: seq<string>): Rows
    decreases |order|
  {
    if order == [] then s else RestoreEach(RestoreTag(s, TagOf(mk, order[0])), mk, order[1..])
  }

  /** The record of `mk` captured `order`, and every captured tag is still in the trash at that digest. */
  ghost predicate AllStillTrashed(s: Rows, mk: ManifestKey, order: seq<string>) {
    && mk in s.manifestTrash
    && Distinct(order)
    && (forall t :: t in order <==> t in s.manifestTrash[mk].tags)
    && (forall t :: t in order ==>
          var tk := TagOf(mk, t); tk !in s.live && tk in s.tagTrash && s.tagTrash[tk].digest == mk.digest)
  }

  /** Restoring one captured tag leaves the rest captured and still trashed. */
  lemma RestoreFirst(s: Rows, mk: ManifestKey, tag: string, rest: seq<string>)
    requires AllStillTrashed(s, mk, [tag] + rest) && rest != []
    ensures AllStillTrashed(RestoreTag(s, TagOf(mk, tag)), mk, rest)
  {
    var order, tags := [tag] + rest, s.manifestTrash[mk].tags;
    assert ManifestOf(TagOf(mk, tag), mk.digest) == mk;
    assert order[0] == tag && order[1..] == rest;
    assert forall t :: t in rest <==> t in order && t != tag;
    assert rest[0] in Without(tags, tag);
  }

  /** What one restore of the digest does is the same before and after one of its tags is restored. */
  lemma RestoreFirstThenAll(s: Rows, mk: ManifestKey, tag: string)
    requires mk in s.manifestTrash && tag in s.manifestTrash[mk].tags
    requires var tk := TagOf(mk, tag); tk !in s.live && tk in s.tagTrash && s.tagTrash[tk].digest == mk.digest
    requires Without(s.manifestTrash[mk].tags, tag) != []
    ensures RestoreManifest(RestoreTag(s, TagOf(mk, tag)), mk) == RestoreManifest(s, mk)
  {
    hide Slots, Without;
    var tk, tags := TagOf(mk, tag), s.manifestTrash[mk].tags;
    assert ManifestOf(tk, mk.digest) == mk;
    var s1 := RestoreTag(s, tk);
    FreeKeysSplit(s.live, mk, tags, tag);
    var keys1 := KeysOf(mk, Restored(s1, mk));
    AddTwice(s.live, keys1, tk, mk.digest);
    assert s.tagTrash - {tk} - keys1 == s.tagTrash - (keys1 + {tk});
    assert s1.manifestTrash - {mk} == s.manifestTrash - {mk};
  }

  lemma FreeKeysSplit(live: map<TagKey, Digest>, mk: ManifestKey, tags: seq<string>, tag: string)
    requires tag in tags && TagOf(mk, tag) !in live
    ensures KeysOf(mk, FreeTags(live, mk, tags))
         == KeysOf(mk, FreeTags(live[TagOf(mk, tag) := mk.digest], mk, Without(tags, tag))) + {TagOf(mk, tag)}
  {
    hide Slots, Without;
    SlotsMembers(live, mk, tags, false);
    SlotsMembers(live[TagOf(mk, tag) := mk.digest], mk, Without(tags, tag), false);
    forall k ensures Among(k, mk, tags) ==> TagOf(mk, k.tag) == k {}
  }

  lemma AddTwice<K, V>(m: map<K, V>, keys: set<K>, key: K, v: V)
    ensures m[key := v] + (map k | k in keys :: v) == m + (map k | k in keys + {key} :: v)
  {
  }

  lemma RestoreLast(s: Rows, mk: ManifestKey, tag: string)
    requires AllStillTrashed(s, mk, [tag])
    ensures RestoreTag(s, TagOf(mk, tag)) == RestoreManifest(s, mk)
  {
    var tk, tags := TagOf(mk, tag), s.manifestTrash[mk].tags;
    assert tag in [tag];
    assert forall t :: t in tags ==> t in [tag];
    NoMembers(Without(tags, tag));
    assert ManifestOf(tk, mk.digest) == mk;
    SlotsMembers(s.live, mk, tags, false);
    var keys := KeysOf(mk, Restored(s, mk));
    forall k ensures k in keys <==> k == tk {
      assert k.index == mk.index && k.repo == mk.repo ==> TagOf(mk, k.tag) == k;
    }
    assert keys == {tk};
    assert RestoreTag(s, tk).live == RestoreManifest(s, mk).live;
  }

  /** Single-tag restores in any order end where one restore of the digest ends. */
  lemma {:induction false} RestoresCommute(s: Rows, mk: ManifestKey, order: seq<string>)
    requires order != [] && AllStillTrashed(s, mk, order)
    ensures RestoreEach(s, mk, order) == RestoreManifest(s, mk)
    decreases |order|
  {
    var tag, rest := order[0], order[1..];
    assert order == [tag] + rest;
    var s1 := RestoreTag(s, TagOf(mk, tag));
    if rest == [] {
      RestoreLast(s, mk, tag);
      assert RestoreEach(s1, mk, []) == s1;
    } else {
      RestoreFirst(s, mk, tag, rest);
      assert tag in order && rest[0] in order && rest[0] != tag by { assert order[0] == tag && order[1] == rest[0]; }
      assert rest[0] in Without(s.manifestTrash[mk].tags, tag);
      RestoreFirstThenAll(s, mk, tag);
      RestoresCommute(s1, mk, rest);
    }
  }

  /**
    After a deletion, restoring the captured tags one by one in any order is one restore of the digest,
    and so undoes the deletion, exactly when the deletion captured a tag: an untagged deletion leaves a
    record only the digest restore can clear.
  */
  lemma Confluence(s: Rows, mk: ManifestKey, info: TrashInfo, tags: seq<string>, order: seq<string>)
    requires Inv(s) && Trashable(s, mk) && ScanOrder(s, mk, tags)
    requires Distinct(order) && forall t :: t in order <==> t in tags
    ensures var s1 := TrashManifest(s, mk, info, tags);
      RestoreEach(s1, mk, order) == RestoreManifest(s1, mk) <==> tags != []
  {
    var s1 := TrashManifest(s, mk, info, tags);
    if tags == [] {
      NoMembers(order);
    } else {
      assert tags[0] in order;
      forall t | t in order
        ensures var tk := TagOf(mk, t); tk !in s1.live && tk in s1.tagTrash && s1.tagTrash[tk].digest == mk.digest
      {
        assert TagOf(mk, t) in KeysOf(mk, tags);
      }
      RestoresCommute(s1, mk, order);
    }
  }

  /**
    A restore of `mk` keeps the trash record of every other digest exactly when no free captured tag has
    since been trashed at another digest.
  */
  lemma RestoreKeepsOtherTrash(s: Rows, mk: ManifestKey)
    requires Inv(s) && mk in s.manifestTrash
    ensures
      (forall k :: k in s.tagTrash && s.tagTrash[k].digest != mk.digest ==> k in RestoreManifest(s, mk).tagTrash)
      <==>
      (forall t :: t in s.manifestTrash[mk].tags && TagOf(mk, t) in s.tagTrash ==>
         s.tagTrash[TagOf(mk, t)].digest == mk.digest)
  {
    var s', tags := RestoreManifest(s, mk), s.manifestTrash[mk].tags;
    SlotsMembers(s.live, mk, tags, false);
    forall t | t in tags && TagOf(mk, t) in s.tagTrash ensures TagOf(mk, t) !in s'.tagTrash {
      assert Among(TagOf(mk, t), mk, FreeTags(s.live, mk, tags));
    }
    forall k | k in s.tagTrash && k !in s'.tagTrash ensures k.tag in tags && k == TagOf(mk, k.tag) {}
  }

  lemma DiscardStates(info: TrashInfo) returns (s1: Rows, s2: Rows, s3: Rows, s4: Rows)
    ensures s1 == Publish(EMPTY, ManifestKey("i", "r", "old"), {}, Some("t"))
    ensures ScanOrder(s1, ManifestKey("i", "r", "old"), ["t"])
    ensures s2 == TrashManifest(s1, ManifestKey("i", "r", "old"), info, ["t"])
    ensures s3 == Publish(s2, ManifestKey("i", "r", "new"), {}, Some("t"))
    ensures s4 == TrashTag(s3, TagKey("i", "r", "t"), info)
    ensures var tk, mk := TagKey("i", "r", "t"), ManifestKey("i", "r", "old");
      && tk !in s4.live && tk in s4.tagTrash && s4.tagTrash[tk].digest == "new"
      && mk in s4.manifestTrash && s4.manifestTrash[mk].tags == ["t"]
  {
    var old_, new_, tk := ManifestKey("i", "r", "old"), ManifestKey("i", "r", "new"), TagKey("i", "r", "t");
    assert "old" != "new" by { assert "old"[0] != "new"[0]; }
    s1 := Publish(EMPTY, old_, {}, Some("t"));
    assert s1.live == map[tk := "old"] && Trashable(s1, old_);
    s2 := TrashManifest(s1, old_, info, ["t"]);
    s3 := Publish(s2, new_, {}, Some("t"));
    s4 := TrashTag(s3, tk, info);
  }

  lemma DiscardLast(s: Rows, tk: TagKey, mk: ManifestKey)
    requires mk in s.manifestTrash && Captured(s, tk, mk) && tk !in s.live && tk in s.tagTrash
    ensures var n := RestoreManifest(s, mk); tk !in n.tagTrash && tk in n.live && n.live[tk] == mk.digest
  {
    RestoreManifestRows(s, mk);
  }

  /** Capture, push elsewhere, trash again: restoring the first digest discards the newer trash record. */
  lemma RestoreDiscardsNewerTrash(info: TrashInfo) returns (ops: seq<Op>, tk: TagKey)
    ensures ValidRun(ops) && |ops| == 5
    ensures var before := StateAfter(ops[..4]); tk in before.tagTrash && before.tagTrash[tk].digest == "new"
    ensures var after := StateAfter(ops); tk !in after.tagTrash && tk in after.live && after.live[tk] == "old"
  {
    var old_, new_ := ManifestKey("i", "r", "old"), ManifestKey("i", "r", "new");
    tk := TagKey("i", "r", "t");
    var s1, s2, s3, s4 := DiscardStates(info);
    DiscardLast(s4, tk, old_);
    ops := [];
    assert ValidRun(ops) && StateAfter(ops) == EMPTY;
    hide StateAfter, ValidRun, Publish, TrashManifest, TrashTag, RestoreManifest, ScanOrder, Captured;
    ops := Extend(ops, PublishOp(old_, {}, Some("t")));
    ops := Extend(ops, TrashManifestOp(old_, info, ["t"]));
    ops := Extend(ops, PublishOp(new_, {}, Some("t")));
    ops := Extend(ops, TrashTagOp(tk, info));
    var before := ops;
    ops := Extend(ops, RestoreManifestOp(old_));
    assert ops[..4] == before;
  }

  lemma Extend(ops: seq<Op>, op: Op) returns (longer: seq<Op>)
    requires ValidRun(ops) && ValidOp(StateAfter(ops), op)
    ensures longer == ops + [op]
    ensures ValidRun(longer) && StateAfter(longer) == Step(StateAfter(ops), op)
  {
    longer := ops + [op];
    assert longer[..|ops|] == ops;
  }
}
