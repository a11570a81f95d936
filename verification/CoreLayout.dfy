/** The layout of a module's core sections, and the images of its read-only and writable data. */
module CoreLayout {
  import opened Alignment
  import opened Concatenation
  import opened Options
  import opened Powers

  /** A section of the object file; `core` is allocated and not for initialisation only. Its index is its position. */
  datatype KoSection = KoSection(core: bool, exec: bool, write: bool, nobits: bool, align: nat, size: nat, offset: nat)

  datatype Group = TextGroup | RoGroup | DataGroup

  predicate InGroup(s: KoSection, g: Group) {
    s.core && match g
              case TextGroup => s.exec
              case RoGroup => !s.exec && !s.write
              case DataGroup => s.write
  }

  function AlignOf(s: KoSection): nat { if s.align > 1 then s.align else 1 }

  /** What an object file guarantees. */
  ghost predicate WellFormed(secs: seq<KoSection>) {
    && (forall i :: 0 <= i < |secs| ==> exists k: nat :: AlignOf(secs[i]) == Pow(2, k))
    && (forall i :: 0 <= i < |secs| && secs[i].core ==> !(secs[i].exec && secs[i].write))
  }

  // ---------------------------------------------------------------------------------------------
  // Placing a group

  /** The positions of a group, in order. */
  ghost predicate IsGroup(secs: seq<KoSection>, g: Group, group: seq<nat>) {
    && (forall i: nat :: i in group <==> i < |secs| && InGroup(secs[i], g))
    && (forall j, k :: 0 <= j < k < |group| ==> group[j] < group[k])
  }

  method Collect(secs: seq<KoSection>, g: Group) returns (group: seq<nat>)
    ensures IsGroup(secs, g, group)
  {
    hide InGroup;
    group := [];
    for i := 0 to |secs|
      invariant forall k: nat :: k in group <==> k < i && InGroup(secs[k], g)
      invariant forall j, k :: 0 <= j < k < |group| ==> group[j] < group[k]
    {
      assert forall j :: 0 <= j < |group| ==> group[j] in group;
      if InGroup(secs[i], g) {
        group := group + [i];
      }
    }
  }

  /** Where the `j`-th of the group may begin. */
  ghost function FreeFrom(secs: seq<KoSection>, group: seq<nat>, offs: map<nat, nat>, from: nat, j: nat): nat
    requires j <= |group|
  {
    if j == 0 then from
    else if group[j - 1] < |secs| && group[j - 1] in offs then offs[group[j - 1]] + secs[group[j - 1]].size
    else 0
  }

  /** The `j`-th of the group is at the next offset of its alignment. */
  ghost predicate PlacedNext(secs: seq<KoSection>, group: seq<nat>, offs: map<nat, nat>, from: nat, j: nat)
    requires j < |group|
  {
    && group[j] < |secs| && group[j] in offs
    && offs[group[j]] % AlignOf(secs[group[j]]) == 0
    && FreeFrom(secs, group, offs, from, j) <= offs[group[j]]
         < FreeFrom(secs, group, offs, from, j) + AlignOf(secs[group[j]])
  }

  ghost predicate GroupPlaced(secs: seq<KoSection>, group: seq<nat>, offs: map<nat, nat>, from: nat, n: nat) {
    n <= |group| && forall j :: 0 <= j < n ==> PlacedNext(secs, group, offs, from, j)
  }

  lemma AlignTo(secs: seq<KoSection>, i: nat, cursor: nat)
    requires WellFormed(secs) && i < |secs|
    ensures AlignUp(cursor, AlignOf(secs[i])) % AlignOf(secs[i]) == 0
    ensures cursor <= AlignUp(cursor, AlignOf(secs[i])) < cursor + AlignOf(secs[i])
  {
    var k: nat :| AlignOf(secs[i]) == Pow(2, k);
    AlignUpIsRounding(cursor, k);
  }

  lemma NothingPlaced(secs: seq<KoSection>, group: seq<nat>, offs: map<nat, nat>, from: nat)
    ensures GroupPlaced(secs, group, offs, from, 0) && FreeFrom(secs, group, offs, from, 0) == from
  {
  }

  lemma NotEarlier(group: seq<nat>, j: nat)
    requires j < |group| && forall k, l :: 0 <= k < l < |group| ==> group[k] < group[l]
    ensures group[j] !in group[..j]
  {
  }

  /** A new entry leaves earlier placements as they are. */
  lemma NextPlaced(secs: seq<KoSection>, group: seq<nat>, offs: map<nat, nat>, from: nat, j: nat, at: nat)
    requires GroupPlaced(secs, group, offs, from, j) && j < |group| && group[j] < |secs| && group[j] !in group[..j]
    requires at % AlignOf(secs[group[j]]) == 0
    requires FreeFrom(secs, group, offs, from, j) <= at < FreeFrom(secs, group, offs, from, j) + AlignOf(secs[group[j]])
    ensures GroupPlaced(secs, group, offs[group[j] := at], from, j + 1)
    ensures FreeFrom(secs, group, offs[group[j] := at], from, j + 1) == at + secs[group[j]].size
  {
    hide AlignOf;
    var more := offs[group[j] := at];
    forall l | 0 <= l < j ensures group[l] != group[j] {
      assert group[l] == group[..j][l];
    }
    forall l | 0 <= l <= j ensures FreeFrom(secs, group, more, from, l) == FreeFrom(secs, group, offs, from, l) {
      if l > 0 {
        assert PlacedNext(secs, group, offs, from, l - 1);
      }
    }
    forall l | 0 <= l < j ensures PlacedNext(secs, group, more, from, l) {
      assert PlacedNext(secs, group, offs, from, l);
    }
  }

  /** One of the three loops: the group follows `from`, and the cursor ends on a page. */
  method PlaceGroup(secs: seq<KoSection>, g: Group, group: seq<nat>, offs0: map<nat, nat>, from: nat)
    returns (offs: map<nat, nat>, end: nat)
    requires WellFormed(secs) && IsGroup(secs, g, group)
    ensures GroupPlaced(secs, group, offs, from, |group|)
    ensures forall i :: i in offs <==> i in offs0 || i in group
    ensures forall i :: i in offs0 && i !in group ==> offs[i] == offs0[i]
    ensures PageAligned(end) && FreeFrom(secs, group, offs, from, |group|) <= end
              < FreeFrom(secs, group, offs, from, |group|) + PAGE
  {
    hide AlignUp, WellFormed, InGroup, AlignOf, GroupPlaced, FreeFrom;
    offs := offs0;
    var cursor := from;
    NothingPlaced(secs, group, offs, from);
    for j := 0 to |group|
      invariant GroupPlaced(secs, group, offs, from, j) && cursor == FreeFrom(secs, group, offs, from, j)
      invariant forall i :: i in offs <==> i in offs0 || i in group[..j]
      invariant forall i :: i in offs0 && i !in group[..j] ==> offs[i] == offs0[i]
    {
      var i := group[j];
      assert i in group;
      assert group[..j + 1] == group[..j] + [i];
      AlignTo(secs, i, cursor);
      NotEarlier(group, j);
      NextPlaced(secs, group, offs, from, j, AlignUp(cursor, AlignOf(secs[i])));
      offs := offs[i := AlignUp(cursor, AlignOf(secs[i]))];
      cursor := offs[i] + secs[i].size;
    }
    assert group[..|group|] == group;
    PageUp(cursor);
    end := AlignUp(cursor, PAGE);
  }

  /** Sections of a group are in order and do not overlap. */
  lemma {:induction false} GroupOrder(secs: seq<KoSection>, group: seq<nat>, offs: map<nat, nat>, from: nat, j: nat, k: nat)
    requires GroupPlaced(secs, group, offs, from, |group|) && j <= k <= |group|
    ensures FreeFrom(secs, group, offs, from, j) <= FreeFrom(secs, group, offs, from, k)
    ensures j < k ==> PlacedNext(secs, group, offs, from, j)
                      && offs[group[j]] + secs[group[j]].size <= FreeFrom(secs, group, offs, from, k)
  {
    if j < k {
      GroupOrder(secs, group, offs, from, j, k - 1);
      assert PlacedNext(secs, group, offs, from, k - 1);
    }
  }

  // ---------------------------------------------------------------------------------------------
  // Images

  /** Byte `p` of an image that starts at `base` is taken from section `i`. */
  ghost predicate TakenFrom(secs: seq<KoSection>, offs: map<nat, nat>, base: nat, i: nat, p: nat) {
    i < |secs| && i in offs && !secs[i].nobits && offs[i] <= base + p < offs[i] + secs[i].size
  }

  ghost predicate ByteIs(secs: seq<KoSection>, group: seq<nat>, offs: map<nat, nat>, base: nat, blob: seq<nat>, p: nat,
                         b: nat) {
    && (forall i :: i in group && TakenFrom(secs, offs, base, i, p) ==>
          SourceOf(secs, offs, base, i, p) < |blob| && b == blob[SourceOf(secs, offs, base, i, p)])
    && ((forall i :: i in group ==> !TakenFrom(secs, offs, base, i, p)) ==> b == 0)
  }

  /** The place in the file. */
  ghost function SourceOf(secs: seq<KoSection>, offs: map<nat, nat>, base: nat, i: nat, p: nat): nat
    requires TakenFrom(secs, offs, base, i, p)
  {
    secs[i].offset + (base + p - offs[i])
  }

  /** The image: what the sections hold in the file, and zero elsewhere, so in NOBITS sections and in padding. */
  ghost predicate IsImage(secs: seq<KoSection>, group: seq<nat>, offs: map<nat, nat>, base: nat, blob: seq<nat>,
                          image: seq<nat>) {
    forall p :: 0 <= p < |image| ==> ByteIs(secs, group, offs, base, blob, p, image[p])
  }

  predicate Truncated(s: KoSection, size: nat) { !s.nobits && s.size > 0 && s.offset + s.size > size }

  /** One section copied into the image. */
  function Copied(image: seq<nat>, at: nat, bytes: seq<nat>): seq<nat>
    requires at + |bytes| <= |image|
  {
    image[..at] + bytes + image[at + |bytes|..]
  }

  lemma CopyKeeps(secs: seq<KoSection>, group: seq<nat>, offs: map<nat, nat>, base: nat, blob: seq<nat>, image: seq<nat>,
                  i: nat)
    requires IsImage(secs, group, offs, base, blob, image)
    requires i < |secs| && i in offs && !secs[i].nobits && secs[i].offset + secs[i].size <= |blob|
    requires base <= offs[i] && offs[i] - base + secs[i].size <= |image|
    requires forall j, p: nat :: j in group && TakenFrom(secs, offs, base, j, p) ==> !TakenFrom(secs, offs, base, i, p)
    ensures IsImage(secs, group + [i], offs, base, blob,
                    Copied(image, offs[i] - base, blob[secs[i].offset..secs[i].offset + secs[i].size]))
  {
    var bytes := blob[secs[i].offset..secs[i].offset + secs[i].size];
    var more := Copied(image, offs[i] - base, bytes);
    forall p | 0 <= p < |more| ensures ByteIs(secs, group + [i], offs, base, blob, p, more[p]) {
      assert ByteIs(secs, group, offs, base, blob, p, image[p]);
      if TakenFrom(secs, offs, base, i, p) {
        assert more[p] == bytes[p - (offs[i] - base)];
      } else {
        assert more[p] == image[p];
      }
      assert forall j :: j in group + [i] <==> j in group || j == i;
      if TakenFrom(secs, offs, base, i, p) {
        assert i in group + [i];
      }
    }
  }

  lemma SkipKeeps(secs: seq<KoSection>, group: seq<nat>, offs: map<nat, nat>, base: nat, blob: seq<nat>, image: seq<nat>,
                  i: nat)
    requires IsImage(secs, group, offs, base, blob, image)
    requires i < |secs| && (secs[i].nobits || secs[i].size == 0)
    ensures IsImage(secs, group + [i], offs, base, blob, image)
  {
    forall p | 0 <= p < |image| ensures ByteIs(secs, group + [i], offs, base, blob, p, image[p]) {
      assert ByteIs(secs, group, offs, base, blob, p, image[p]);
      assert forall j :: j in group + [i] <==> j in group || j == i;
      assert !TakenFrom(secs, offs, base, i, p);
      if forall j :: j in group + [i] ==> !TakenFrom(secs, offs, base, j, p) {
        assert forall j :: j in group ==> j in group + [i];
      }
    }
  }

  lemma GroupDisjoint(secs: seq<KoSection>, group: seq<nat>, offs: map<nat, nat>, from: nat, base: nat, k: nat)
    requires GroupPlaced(secs, group, offs, from, |group|) && k < |group|
    ensures forall i, p: nat :: i in group[..k] && TakenFrom(secs, offs, base, i, p) ==>
              !TakenFrom(secs, offs, base, group[k], p)
  {
    hide FreeFrom;
    forall i, p: nat | i in group[..k] && TakenFrom(secs, offs, base, i, p)
      ensures !TakenFrom(secs, offs, base, group[k], p)
    {
      var j :| 0 <= j < k && group[j] == i;
      GroupOrder(secs, group, offs, from, j, k);
      GroupOrder(secs, group, offs, from, k, k + 1);
    }
  }

  lemma ZeroImage(secs: seq<KoSection>, offs: map<nat, nat>, base: nat, blob: seq<nat>, n: nat)
    ensures IsImage(secs, [], offs, base, blob, seq(n, _ => 0))
  {
  }

  /** The image of a group, or the first section that is not wholly in the file. */
  method BuildImage(secs: seq<KoSection>, group: seq<nat>, offs: map<nat, nat>, base: nat, end: nat, blob: seq<nat>)
    returns (r: Result<seq<nat>, nat>)
    requires GroupPlaced(secs, group, offs, base, |group|) && FreeFrom(secs, group, offs, base, |group|) <= end
    requires base <= end
    ensures r.Ok? ==> |r.value| == end - base && IsImage(secs, group, offs, base, blob, r.value)
    ensures r.Ok? <==> forall j :: 0 <= j < |group| ==> group[j] < |secs| && !Truncated(secs[group[j]], |blob|)
    ensures r.Err? ==> exists j :: 0 <= j < |group| && group[j] == r.error < |secs| && Truncated(secs[r.error], |blob|)
                                   && forall l :: 0 <= l < j ==> group[l] < |secs| && !Truncated(secs[group[l]], |blob|)
  {
    hide IsImage, FreeFrom, PlacedNext;
    var image: seq<nat> := seq(end - base, _ => 0);
    ZeroImage(secs, offs, base, blob, end - base);
    for j := 0 to |group|
      invariant |image| == end - base && IsImage(secs, group[..j], offs, base, blob, image)
      invariant forall l :: 0 <= l < j ==> group[l] < |secs| && !Truncated(secs[group[l]], |blob|)
    {
      var i := group[j];
      assert group[..j + 1] == group[..j] + [i];
      GroupOrder(secs, group, offs, base, 0, j);
      GroupOrder(secs, group, offs, base, j, |group|);
      PlacedBounds(secs, group, offs, base, j);
      if secs[i].size == 0 || secs[i].nobits {
        SkipKeeps(secs, group[..j], offs, base, blob, image, i);
      } else {
        var last := secs[i].offset + secs[i].size;
        if last > |blob| {
          return Err(i);
        }
        GroupDisjoint(secs, group, offs, base, base, j);
        CopyKeeps(secs, group[..j], offs, base, blob, image, i);
        image := Copied(image, offs[i] - base, blob[secs[i].offset..last]);
      }
    }
    assert group[..|group|] == group;
    r := Ok(image);
  }

  lemma PlacedBounds(secs: seq<KoSection>, group: seq<nat>, offs: map<nat, nat>, from: nat, j: nat)
    requires j < |group| && PlacedNext(secs, group, offs, from, j)
    requires FreeFrom(secs, group, offs, from, 0) <= FreeFrom(secs, group, offs, from, j)
    ensures group[j] < |secs| && group[j] in offs && from <= offs[group[j]]
  {
  }

  // ---------------------------------------------------------------------------------------------
  // The whole layout

  datatype RelaEntry = RelaEntry(offset: nat, symbol: nat, rtype: nat, addend: int)

  const RELA_SIZE: nat := 24

  /** A relocation section, the section it applies to, and its entries, of which the last may be cut off by its end. */
  datatype RelaSection = RelaSection(target: nat, entsize: nat, offset: nat, size: nat, entries: seq<RelaEntry>) {
    /** Its entries are of the size that is expected and lie in a file of `n` bytes. */
    predicate Readable(n: nat) {
      entsize == RELA_SIZE && offset + size <= n && offset + RELA_SIZE * |entries| <= n
    }
  }

  datatype Failure = TruncatedSection(section: nat) | BadRelocations(which: nat)

  /** A relocation of the data image, at `offset` in it. */
  datatype DataReloc = DataReloc(offset: nat, entry: RelaEntry)

  datatype Core = Core(offsets: map<nat, nat>, textEnd: nat, roEnd: nat, dataEnd: nat, roImage: seq<nat>,
                       dataImage: seq<nat>, relocs: seq<DataReloc>)

  ghost predicate IsPlaced(secs: seq<KoSection>, group: seq<nat>, g: Group, offs: map<nat, nat>, from: nat, end: nat) {
    && IsGroup(secs, g, group) && GroupPlaced(secs, group, offs, from, |group|)
    && PageAligned(end)
    && FreeFrom(secs, group, offs, from, |group|) <= end < FreeFrom(secs, group, offs, from, |group|) + PAGE
  }

  /** The relocations of one section: its entries, moved to their places in the data image, if it is for a data section. */
  ghost function RelocsFor(s: RelaSection, data: seq<nat>, offs: map<nat, nat>, start: nat): seq<DataReloc> {
    if s.target in data && s.target in offs && start <= offs[s.target] then
      seq(|s.entries|, e requires 0 <= e < |s.entries| =>
        DataReloc(offs[s.target] - start + s.entries[e].offset, s.entries[e]))
    else []
  }

  ghost function AllRelocs(relas: seq<RelaSection>, data: seq<nat>, offs: map<nat, nat>, start: nat): seq<seq<DataReloc>> {
    seq(|relas|, k requires 0 <= k < |relas| => RelocsFor(relas[k], data, offs, start))
  }

  ghost predicate IsCore(secs: seq<KoSection>, relas: seq<RelaSection>, blob: seq<nat>, text: seq<nat>, ro: seq<nat>,
                         data: seq<nat>, c: Core) {
    && IsPlaced(secs, text, TextGroup, c.offsets, 0, c.textEnd)
    && IsPlaced(secs, ro, RoGroup, c.offsets, c.textEnd, c.roEnd)
    && IsPlaced(secs, data, DataGroup, c.offsets, c.roEnd, c.dataEnd)
    && |c.roImage| == c.roEnd - c.textEnd && IsImage(secs, ro, c.offsets, c.textEnd, blob, c.roImage)
    && |c.dataImage| == c.dataEnd - c.roEnd && IsImage(secs, data, c.offsets, c.roEnd, blob, c.dataImage)
    && c.relocs == Flatten(AllRelocs(relas, data, c.offsets, c.roEnd))
  }

  lemma KeepsPlaced(secs: seq<KoSection>, g: Group, group: seq<nat>, offs: map<nat, nat>, more: map<nat, nat>, from: nat,
                    end: nat)
    requires IsPlaced(secs, group, g, offs, from, end)
    requires forall i :: i in group && i in offs ==> i in more && more[i] == offs[i]
    ensures IsPlaced(secs, group, g, more, from, end)
  {
    hide AlignOf, InGroup;
    forall j | 0 <= j < |group|
      ensures group[j] in offs && group[j] in more && more[group[j]] == offs[group[j]]
    {
      assert PlacedNext(secs, group, offs, from, j);
      assert group[j] in group;
    }
    forall j | 0 <= j <= |group| ensures FreeFrom(secs, group, more, from, j) == FreeFrom(secs, group, offs, from, j) {
      if j > 0 {
        assert PlacedNext(secs, group, offs, from, j - 1);
      }
    }
    forall j | 0 <= j < |group| ensures PlacedNext(secs, group, more, from, j) {
      assert PlacedNext(secs, group, offs, from, j);
    }
  }

  lemma GroupsApart(secs: seq<KoSection>, g: Group, group: seq<nat>, h: Group, other: seq<nat>, i: nat)
    requires WellFormed(secs) && IsGroup(secs, g, group) && IsGroup(secs, h, other) && g != h && i in group
    ensures i !in other
  {
    assert i < |secs| && InGroup(secs[i], g);
  }

  method PlaceAll(secs: seq<KoSection>) returns (text: seq<nat>, ro: seq<nat>, data: seq<nat>, offs: map<nat, nat>,
                                                 textEnd: nat, roEnd: nat, dataEnd: nat)
    requires WellFormed(secs)
    ensures IsPlaced(secs, text, TextGroup, offs, 0, textEnd) && IsPlaced(secs, ro, RoGroup, offs, textEnd, roEnd)
    ensures IsPlaced(secs, data, DataGroup, offs, roEnd, dataEnd)
  {
    hide WellFormed, IsGroup, GroupPlaced, FreeFrom;
    text := Collect(secs, TextGroup);
    ro := Collect(secs, RoGroup);
    data := Collect(secs, DataGroup);
    var first, second: map<nat, nat>;
    first, textEnd := PlaceGroup(secs, TextGroup, text, map[], 0);
    second, roEnd := PlaceGroup(secs, RoGroup, ro, first, textEnd);
    offs, dataEnd := PlaceGroup(secs, DataGroup, data, second, roEnd);
    forall i: nat | i in text ensures i !in ro && i !in data {
      GroupsApart(secs, TextGroup, text, RoGroup, ro, i);
      GroupsApart(secs, TextGroup, text, DataGroup, data, i);
    }
    forall i: nat | i in ro ensures i !in data {
      GroupsApart(secs, RoGroup, ro, DataGroup, data, i);
    }
    KeepsPlaced(secs, TextGroup, text, first, offs, 0, textEnd);
    KeepsPlaced(secs, RoGroup, ro, second, offs, textEnd, roEnd);
  }

  /** The relocations for data sections, or the first section of them that cannot be read from a file of `n` bytes. */
  method CollectRelocs(secs: seq<KoSection>, relas: seq<RelaSection>, data: seq<nat>, offs: map<nat, nat>, start: nat,
                       end: nat, n: nat) returns (r: Result<seq<DataReloc>, nat>)
    requires IsPlaced(secs, data, DataGroup, offs, start, end)
    ensures r.Ok? ==> r.value == Flatten(AllRelocs(relas, data, offs, start))
    ensures r.Ok? <==> forall k :: 0 <= k < |relas| && relas[k].target in data ==> relas[k].Readable(n)
    ensures r.Err? ==> r.error < |relas| && relas[r.error].target in data && !relas[r.error].Readable(n)
                       && forall k :: 0 <= k < r.error && relas[k].target in data ==> relas[k].Readable(n)
  {
    hide IsPlaced;
    var relocs := [];
    ghost var parts := AllRelocs(relas, data, offs, start);
    for k := 0 to |relas|
      invariant relocs == Flatten(parts[..k])
      invariant forall j :: 0 <= j < k && relas[j].target in data ==> relas[j].Readable(n)
    {
      var s := relas[k];
      ghost var before := relocs;
      if s.target in data {
        if !s.Readable(n) {
          return Err(k);
        }
        DataPlaced(secs, data, offs, start, end, s.target);
        for e := 0 to |s.entries|
          invariant relocs == before + parts[k][..e]
        {
          assert parts[k][..e + 1] == parts[k][..e] + [parts[k][e]];
          relocs := relocs + [DataReloc(offs[s.target] - start + s.entries[e].offset, s.entries[e])];
        }
      }
      FlattenStep(parts, k);
    }
    assert parts[..|relas|] == parts;
    r := Ok(relocs);
  }

  lemma DataPlaced(secs: seq<KoSection>, data: seq<nat>, offs: map<nat, nat>, start: nat, end: nat, i: nat)
    requires IsPlaced(secs, data, DataGroup, offs, start, end) && i in data
    ensures i < |secs| && i in offs && start <= offs[i] && offs[i] + secs[i].size <= end
  {
    hide IsGroup;
    var j :| 0 <= j < |data| && data[j] == i;
    GroupOrder(secs, data, offs, start, 0, j);
    GroupOrder(secs, data, offs, start, j, |data|);
  }

  /** `compute_core_layout`; the ghost results are the positions of the groups. */
  method ComputeCoreLayout(secs: seq<KoSection>, relas: seq<RelaSection>, blob: seq<nat>)
    returns (r: Result<Core, Failure>, ghost text: seq<nat>, ghost ro: seq<nat>, ghost data: seq<nat>)
    requires WellFormed(secs)
    ensures r.Ok? ==> IsCore(secs, relas, blob, text, ro, data, r.value)
    ensures r.Ok? <==>
              && (forall i :: 0 <= i < |secs| && secs[i].core && (secs[i].write || !secs[i].exec) ==>
                    secs[i].nobits || secs[i].size == 0 || secs[i].offset + secs[i].size <= |blob|)
              && (forall k :: 0 <= k < |relas| && relas[k].target < |secs| && secs[relas[k].target].core
                              && secs[relas[k].target].write ==>
                    relas[k].entsize == 24 && relas[k].offset + relas[k].size <= |blob|
                    && relas[k].offset + 24 * |relas[k].entries| <= |blob|)
  {
    hide WellFormed, GroupPlaced, IsImage, InGroup, FreeFrom, Truncated, RelaSection.Readable;
    forall i | 0 <= i < |secs| ensures GroupsOf(secs[i]) && SpaceOf(secs[i], |blob|) {
      GroupsAre(secs[i], |blob|);
    }
    forall k | 0 <= k < |relas|
      ensures relas[k].Readable(|blob|) <==>
                && relas[k].entsize == 24 && relas[k].offset + relas[k].size <= |blob|
                && relas[k].offset + 24 * |relas[k].entries| <= |blob|
    {
      ReadableExactly(relas[k], |blob|);
    }
    var t, o, d, offs, textEnd, roEnd, dataEnd := PlaceAll(secs);
    text, ro, data := t, o, d;
    PlacedUp(secs, RoGroup, o, offs, textEnd, roEnd);
    PlacedUp(secs, DataGroup, d, offs, roEnd, dataEnd);
    var roImage := BuildImage(secs, o, offs, textEnd, roEnd, blob);
    Members(secs, RoGroup, o);
    Members(secs, DataGroup, d);
    if roImage.Err? {
      return Err(TruncatedSection(roImage.error)), text, ro, data;
    }
    var dataImage := BuildImage(secs, d, offs, roEnd, dataEnd, blob);
    if dataImage.Err? {
      return Err(TruncatedSection(dataImage.error)), text, ro, data;
    }
    var relocs := CollectRelocs(secs, relas, d, offs, roEnd, dataEnd, |blob|);
    if relocs.Err? {
      return Err(BadRelocations(relocs.error)), text, ro, data;
    }
    r := Ok(Core(offs, textEnd, roEnd, dataEnd, roImage.value, dataImage.value, relocs.value));
  }

  ghost predicate GroupsOf(s: KoSection) {
    && (InGroup(s, RoGroup) || InGroup(s, DataGroup) <==> s.core && (s.write || !s.exec))
    && (InGroup(s, DataGroup) <==> s.core && s.write)
  }

  ghost predicate SpaceOf(s: KoSection, size: nat) {
    Truncated(s, size) <==> !(s.nobits || s.size == 0 || s.offset + s.size <= size)
  }

  lemma GroupsAre(s: KoSection, size: nat)
    ensures GroupsOf(s) && SpaceOf(s, size)
  {
  }

  lemma ReadableExactly(r: RelaSection, n: nat)
    ensures r.Readable(n) <==> r.entsize == 24 && r.offset + r.size <= n && r.offset + 24 * |r.entries| <= n
  {
  }

  lemma PlacedUp(secs: seq<KoSection>, g: Group, group: seq<nat>, offs: map<nat, nat>, from: nat, end: nat)
    requires IsPlaced(secs, group, g, offs, from, end)
    ensures from <= end
  {
    hide IsGroup;
    GroupOrder(secs, group, offs, from, 0, |group|);
  }

  lemma Members(secs: seq<KoSection>, g: Group, group: seq<nat>)
    requires IsGroup(secs, g, group)
    ensures forall j :: 0 <= j < |group| ==> group[j] < |secs| && InGroup(secs[group[j]], g)
    ensures forall i :: 0 <= i < |secs| && InGroup(secs[i], g) ==> exists j :: 0 <= j < |group| && group[j] == i
  {
    hide InGroup;
    forall j | 0 <= j < |group| ensures group[j] < |secs| && InGroup(secs[group[j]], g) {
      assert group[j] in group;
    }
    forall i: nat | i < |secs| && InGroup(secs[i], g) ensures exists j :: 0 <= j < |group| && group[j] == i {
      assert i in group;
    }
  }

  // ---------------------------------------------------------------------------------------------
  // What the layout guarantees

  /** Executable sections are in the text area, read-only ones behind it, writable ones last, each as it asks for. */
  lemma AreaOfSection(secs: seq<KoSection>, relas: seq<RelaSection>, blob: seq<nat>, text: seq<nat>, ro: seq<nat>,
                      data: seq<nat>, c: Core, i: nat)
    requires WellFormed(secs) && IsCore(secs, relas, blob, text, ro, data, c) && i < |secs| && secs[i].core
    ensures i in c.offsets && (secs[i].align > 1 ==> c.offsets[i] % secs[i].align == 0)
    ensures secs[i].exec ==> c.offsets[i] + secs[i].size <= c.textEnd
    ensures !secs[i].exec && !secs[i].write ==> c.textEnd <= c.offsets[i] && c.offsets[i] + secs[i].size <= c.roEnd
    ensures secs[i].write ==> c.roEnd <= c.offsets[i] && c.offsets[i] + secs[i].size <= c.dataEnd
  {
    hide IsImage, GroupPlaced, FreeFrom;
    if secs[i].exec {
      assert InGroup(secs[i], TextGroup);
      GroupInArea(secs, TextGroup, text, c.offsets, 0, c.textEnd, i);
    } else if secs[i].write {
      assert InGroup(secs[i], DataGroup);
      GroupInArea(secs, DataGroup, data, c.offsets, c.roEnd, c.dataEnd, i);
    } else {
      assert InGroup(secs[i], RoGroup);
      GroupInArea(secs, RoGroup, ro, c.offsets, c.textEnd, c.roEnd, i);
    }
  }

  function RankOf(g: Group): nat { match g case TextGroup => 0 case RoGroup => 1 case DataGroup => 2 }

  lemma GroupInArea(secs: seq<KoSection>, g: Group, group: seq<nat>, offs: map<nat, nat>, from: nat, end: nat, i: nat)
    requires IsPlaced(secs, group, g, offs, from, end) && i in group
    ensures i < |secs| && i in offs && from <= offs[i] && offs[i] + secs[i].size <= end
    ensures offs[i] % AlignOf(secs[i]) == 0
  {
    hide IsGroup;
    var j :| 0 <= j < |group| && group[j] == i;
    GroupOrder(secs, group, offs, from, 0, j);
    GroupOrder(secs, group, offs, from, j, |group|);
  }

  /** Core sections are aligned, and lie text first, read-only data next, writable data last, without overlapping. */
  lemma SectionsInOrder(secs: seq<KoSection>, relas: seq<RelaSection>, blob: seq<nat>, text: seq<nat>, ro: seq<nat>,
                        data: seq<nat>, c: Core, i: nat, g: Group, j: nat, h: Group)
    requires WellFormed(secs) && IsCore(secs, relas, blob, text, ro, data, c)
    requires i < |secs| && j < |secs| && InGroup(secs[i], g) && InGroup(secs[j], h)
    requires RankOf(g) < RankOf(h) || (g == h && i < j)
    ensures i in c.offsets && j in c.offsets && c.offsets[i] + secs[i].size <= c.offsets[j]
    ensures c.offsets[i] % AlignOf(secs[i]) == 0
    ensures PageAligned(c.textEnd) && PageAligned(c.roEnd) && c.textEnd <= c.roEnd <= c.dataEnd
  {
    hide WellFormed, IsImage, InGroup, GroupPlaced, FreeFrom;
    var group := if g == TextGroup then text else if g == RoGroup then ro else data;
    var other := if h == TextGroup then text else if h == RoGroup then ro else data;
    var from := if g == TextGroup then 0 else if g == RoGroup then c.textEnd else c.roEnd;
    var end := if g == TextGroup then c.textEnd else if g == RoGroup then c.roEnd else c.dataEnd;
    var from2 := if h == TextGroup then 0 else if h == RoGroup then c.textEnd else c.roEnd;
    var end2 := if h == TextGroup then c.textEnd else if h == RoGroup then c.roEnd else c.dataEnd;
    assert i in group && j in other;
    GroupInArea(secs, g, group, c.offsets, from, end, i);
    GroupInArea(secs, h, other, c.offsets, from2, end2, j);
    PlacedUp(secs, RoGroup, ro, c.offsets, c.textEnd, c.roEnd);
    PlacedUp(secs, DataGroup, data, c.offsets, c.roEnd, c.dataEnd);
    if g == h {
      SameGroupOrder(secs, g, group, c.offsets, from, i, j);
    }
  }

  lemma SameGroupOrder(secs: seq<KoSection>, g: Group, group: seq<nat>, offs: map<nat, nat>, from: nat, i: nat, j: nat)
    requires IsGroup(secs, g, group) && GroupPlaced(secs, group, offs, from, |group|)
    requires i in group && j in group && i < j && i in offs && j in offs && i < |secs|
    ensures offs[i] + secs[i].size <= offs[j]
  {
    hide InGroup, FreeFrom;
    var k :| 0 <= k < |group| && group[k] == i;
    var l :| 0 <= l < |group| && group[l] == j;
    if k < l {
      GroupOrder(secs, group, offs, from, k, l);
      GroupOrder(secs, group, offs, from, l, l + 1);
    }
  }

  /** In an image, a section is found as it is in the file, or as zeros when it takes no space there. */
  lemma ImageHoldsSection(secs: seq<KoSection>, g: Group, group: seq<nat>, offs: map<nat, nat>, base: nat, end: nat,
                          blob: seq<nat>, image: seq<nat>, i: nat)
    requires IsPlaced(secs, group, g, offs, base, end) && i in group
    requires |image| == end - base && IsImage(secs, group, offs, base, blob, image)
    requires i < |secs| && !Truncated(secs[i], |blob|)
    ensures i in offs && base <= offs[i] && offs[i] + secs[i].size <= end
    ensures secs[i].nobits ==> forall p :: offs[i] - base <= p < offs[i] - base + secs[i].size ==> image[p] == 0
    ensures !secs[i].nobits && secs[i].size > 0 ==>
              image[offs[i] - base..offs[i] - base + secs[i].size] == blob[secs[i].offset..secs[i].offset + secs[i].size]
  {
    hide IsPlaced, AlignOf, InGroup;
    GroupInArea(secs, g, group, offs, base, end, i);
    forall p: nat | offs[i] - base <= p < offs[i] - base + secs[i].size
      ensures secs[i].nobits ==> image[p] == 0
      ensures !secs[i].nobits ==> image[p] == blob[secs[i].offset + (p - (offs[i] - base))]
    {
      assert ByteIs(secs, group, offs, base, blob, p, image[p]);
      if secs[i].nobits {
        forall j | j in group ensures !TakenFrom(secs, offs, base, j, p) {
          GroupInArea(secs, g, group, offs, base, end, j);
          OtherPlace(secs, g, group, offs, base, end, i, j);
        }
      } else {
        assert TakenFrom(secs, offs, base, i, p);
      }
    }
  }

  lemma OtherPlace(secs: seq<KoSection>, g: Group, group: seq<nat>, offs: map<nat, nat>, base: nat, end: nat, i: nat, j: nat)
    requires IsPlaced(secs, group, g, offs, base, end) && i in group && j in group && i < |secs| && j < |secs|
    ensures i in offs && j in offs
    ensures i == j || offs[i] + secs[i].size <= offs[j] || offs[j] + secs[j].size <= offs[i]
  {
    GroupInArea(secs, g, group, offs, base, end, i);
    GroupInArea(secs, g, group, offs, base, end, j);
    if i < j {
      SameGroupOrder(secs, g, group, offs, base, i, j);
    } else if j < i {
      SameGroupOrder(secs, g, group, offs, base, j, i);
    }
  }
}
