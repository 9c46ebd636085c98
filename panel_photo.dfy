/**
 * Choosing the photo of the site board for one work (src/FotoPainel.tsx):
 * find the work, keep from each of its site diaries the first photo whose
 * name marks it as a board photo, and take the candidate from the most
 * recent diary. A diary's date is an integer key, larger meaning later.
 */
module PanelPhoto {
  import opened Wrappers
  import opened Text

  datatype Foto = Foto(name: string)

  /** A site diary: its id, its date and the photos attached to it. */
  datatype Diario = Diario(id: int, data: int, fotos: seq<Foto>)

  /** A contract lot of a work, with its diaries. */
  datatype Lote = Lote(diarios: seq<Diario>)

  datatype ObraFotos = ObraFotos(id: int, lotes: seq<Lote>)

  /** A diary that has a board photo, with the first such photo. */
  datatype Candidate = Candidate(data: int, diarioId: int, foto: Foto)

  const PanelWord := "painel"
  const ValidExtensions: seq<string> := [".jpg", ".jpeg", ".png"]

  /** The work `obraId` is the `i`-th of the list and no earlier work has that id. */
  ghost predicate IsFirstWithId(obras: seq<ObraFotos>, obraId: int, i: int) {
    0 <= i < |obras| && obras[i].id == obraId && forall j :: 0 <= j < i ==> obras[j].id != obraId
  }

  /** `obras.find(o => o.id === obraId)`: the first work with that id, if any. */
  function FindWork(obras: seq<ObraFotos>, obraId: int): (found: Option<ObraFotos>)
    ensures found.None? <==> forall i :: 0 <= i < |obras| ==> obras[i].id != obraId
    ensures found.Some? ==> exists i :: IsFirstWithId(obras, obraId, i) && obras[i] == found.value
  {
    if |obras| == 0 then
      None
    else if obras[0].id == obraId then
      assert IsFirstWithId(obras, obraId, 0);
      Some(obras[0])
    else
      var rest := FindWork(obras[1..], obraId);
      assert rest.Some? ==> exists i :: IsFirstWithId(obras, obraId, i) && obras[i] == rest.value by {
        if rest.Some? {
          var i :| IsFirstWithId(obras[1..], obraId, i) && obras[1..][i] == rest.value;
          assert IsFirstWithId(obras, obraId, i + 1);
        }
      }
      assert rest.None? ==> forall i :: 0 <= i < |obras| ==> obras[i].id != obraId by {
        if rest.None? {
          forall i | 0 < i < |obras| ensures obras[i].id != obraId {
            assert obras[1..][i - 1] == obras[i];
          }
        }
      }
      rest
  }

  /** The name filter: lower-cased, the name contains "painel" and ends in one of the extensions. */
  predicate IsPanelPhoto(name: string) {
    var lower := Lower(name);
    Contains(lower, PanelWord) && exists k :: 0 <= k < |ValidExtensions| && EndsWith(lower, ValidExtensions[k])
  }

  /**
   * A photo qualifies exactly when its lower-cased name contains "painel" at
   * some position and ends in ".jpg", ".jpeg" or ".png".
   */
  lemma PanelPhotoMeans(name: string)
    ensures IsPanelPhoto(name) <==>
              (exists i :: OccursAt(Lower(name), PanelWord, i))
              && (EndsWith(Lower(name), ".jpg") || EndsWith(Lower(name), ".jpeg") || EndsWith(Lower(name), ".png"))
  {
    var lower := Lower(name);
    if EndsWith(lower, ".jpg") || EndsWith(lower, ".jpeg") || EndsWith(lower, ".png") {
      var k := if EndsWith(lower, ".jpg") then 0 else if EndsWith(lower, ".jpeg") then 1 else 2;
      assert EndsWith(lower, ValidExtensions[k]);
    }
  }

  /** Case does not matter: a name and its lower-cased form qualify alike. */
  lemma PanelPhotoIgnoresCase(name: string)
    ensures IsPanelPhoto(Lower(name)) == IsPanelPhoto(name)
  {
    LowerIdempotent(name);
  }

  /** Upper-case letters do not matter; the word may sit anywhere; other extensions do not qualify. */
  lemma PanelPhotoExamples()
    ensures IsPanelPhoto("Foto_PAINEL.JPG")
    ensures !IsPanelPhoto("painel.gif")
    ensures !IsPanelPhoto("fachada.png")
  {
    assert OccursAt(Lower("Foto_PAINEL.JPG"), PanelWord, 5);
    assert EndsWith(Lower("Foto_PAINEL.JPG"), ValidExtensions[0]);
    var gif := Lower("painel.gif");
    assert gif[|gif| - 1] == 'f';
    forall k | 0 <= k < |ValidExtensions| ensures !EndsWith(gif, ValidExtensions[k]) {
      var ext := ValidExtensions[k];
      assert ext[|ext| - 1] == 'g';
    }
    var png := Lower("fachada.png");
    forall i | 0 <= i <= 5 ensures png[i] != 'p' {
      assert png[i] == "fachada.png"[i];
    }
    forall i | 0 <= i ensures !OccursAt(png, PanelWord, i) {
      if i <= 5 {
        assert png[i..i + 6][0] == png[i];
      }
    }
  }

  /** `diario.fotos.filter(...)`: the board photos of a diary, in their order. */
  function PanelPhotos(fotos: seq<Foto>): (kept: seq<Foto>)
    ensures |kept| <= |fotos|
    ensures forall f :: f in kept <==> f in fotos && IsPanelPhoto(f.name)
  {
    if |fotos| == 0 then
      []
    else
      assert forall f :: f in fotos <==> f == fotos[0] || f in fotos[1..];
      (if IsPanelPhoto(fotos[0].name) then [fotos[0]] else []) + PanelPhotos(fotos[1..])
  }

  /** The `i`-th photo is a board photo and no earlier one is. */
  ghost predicate IsFirstPanelAt(fotos: seq<Foto>, i: int) {
    0 <= i < |fotos| && IsPanelPhoto(fotos[i].name) && forall j :: 0 <= j < i ==> !IsPanelPhoto(fotos[j].name)
  }

  /** `fotos[0]` of the filtered list, when it is not empty. */
  function FirstPanelPhoto(fotos: seq<Foto>): Option<Foto> {
    var kept := PanelPhotos(fotos);
    if |kept| > 0 then Some(kept[0]) else None
  }

  /** A diary yields a photo exactly when it has a board photo, and the photo is its first one. */
  lemma {:induction false} FirstPanelPhotoIsFirst(fotos: seq<Foto>)
    ensures FirstPanelPhoto(fotos).None? <==> forall i :: 0 <= i < |fotos| ==> !IsPanelPhoto(fotos[i].name)
    ensures FirstPanelPhoto(fotos).Some? ==>
              exists i :: IsFirstPanelAt(fotos, i) && fotos[i] == FirstPanelPhoto(fotos).value
  {
    if |fotos| > 0 {
      if IsPanelPhoto(fotos[0].name) {
        assert IsFirstPanelAt(fotos, 0);
      } else {
        var rest := fotos[1..];
        FirstPanelPhotoIsFirst(rest);
        assert FirstPanelPhoto(fotos) == FirstPanelPhoto(rest);
        if FirstPanelPhoto(rest).Some? {
          var i :| IsFirstPanelAt(rest, i) && rest[i] == FirstPanelPhoto(rest).value;
          assert IsFirstPanelAt(fotos, i + 1);
        } else {
          forall i | 0 < i < |fotos| ensures !IsPanelPhoto(fotos[i].name) {
            assert rest[i - 1] == fotos[i];
          }
        }
      }
    }
  }

  /** What one diary adds to the candidates: its first board photo, or nothing. */
  function CandidateOf(d: Diario): seq<Candidate> {
    match FirstPanelPhoto(d.fotos)
    case None => []
    case Some(f) => [Candidate(d.data, d.id, f)]
  }

  /** The candidates of a run of diaries, in diary order. */
  function DiaryCandidates(ds: seq<Diario>): (cs: seq<Candidate>)
  {
    if |ds| == 0 then [] else DiaryCandidates(ds[..|ds| - 1]) + CandidateOf(ds[|ds| - 1])
  }

  /** The candidates of a work's lots: lot by lot, and diary by diary inside each lot. */
  function Candidates(lotes: seq<Lote>): (cs: seq<Candidate>)
  {
    if |lotes| == 0 then [] else Candidates(lotes[..|lotes| - 1]) + DiaryCandidates(lotes[|lotes| - 1].diarios)
  }

  /** The diaries of all lots, in lot order. */
  function AllDiaries(lotes: seq<Lote>): seq<Diario> {
    if |lotes| == 0 then [] else AllDiaries(lotes[..|lotes| - 1]) + lotes[|lotes| - 1].diarios
  }

  lemma {:induction false} DiaryCandidatesAppend(a: seq<Diario>, b: seq<Diario>)
    ensures DiaryCandidates(a + b) == DiaryCandidates(a) + DiaryCandidates(b)
    decreases |b|
  {
    if |b| == 0 {
      assert a + b == a;
    } else {
      assert (a + b)[..|a + b| - 1] == a + b[..|b| - 1];
      DiaryCandidatesAppend(a, b[..|b| - 1]);
    }
  }

  /** Walking lot by lot and then diary by diary is one walk over all the diaries in that order. */
  lemma {:induction false} CandidatesFollowDiaries(lotes: seq<Lote>)
    ensures Candidates(lotes) == DiaryCandidates(AllDiaries(lotes))
  {
    if |lotes| > 0 {
      var prefix := lotes[..|lotes| - 1];
      CandidatesFollowDiaries(prefix);
      DiaryCandidatesAppend(AllDiaries(prefix), lotes[|lotes| - 1].diarios);
    }
  }

  /**
   * There are no more candidates than diaries, and a value is a candidate
   * exactly when some diary paired with its first board photo gives it
   * (position and order are stated by `DiaryCandidatesIndexed`).
   */
  lemma {:induction false} DiaryCandidatesMembership(ds: seq<Diario>, c: Candidate)
    ensures |DiaryCandidates(ds)| <= |ds|
    ensures c in DiaryCandidates(ds) <==>
              exists i :: 0 <= i < |ds| && FirstPanelPhoto(ds[i].fotos) == Some(c.foto)
                                         && c.data == ds[i].data && c.diarioId == ds[i].id
  {
    if |ds| > 0 {
      var prefix, last := ds[..|ds| - 1], ds[|ds| - 1];
      DiaryCandidatesMembership(prefix, c);
      if c in DiaryCandidates(prefix) {
        var i :| 0 <= i < |prefix| && FirstPanelPhoto(prefix[i].fotos) == Some(c.foto)
                 && c.data == prefix[i].data && c.diarioId == prefix[i].id;
        assert ds[i] == prefix[i];
      }
      if exists i :: 0 <= i < |ds| && FirstPanelPhoto(ds[i].fotos) == Some(c.foto)
                     && c.data == ds[i].data && c.diarioId == ds[i].id {
        var i :| 0 <= i < |ds| && FirstPanelPhoto(ds[i].fotos) == Some(c.foto)
                 && c.data == ds[i].data && c.diarioId == ds[i].id;
        if i < |ds| - 1 {
          assert prefix[i] == ds[i];
        }
      }
    }
  }

  /** The positions of the diaries that have a board photo, in increasing order. */
  function CandidateDiaries(ds: seq<Diario>): seq<nat> {
    if |ds| == 0 then []
    else if FirstPanelPhoto(ds[|ds| - 1].fotos).Some? then CandidateDiaries(ds[..|ds| - 1]) + [|ds| - 1]
    else CandidateDiaries(ds[..|ds| - 1])
  }

  /**
   * The candidates are, one for one and in diary order, the diaries with a
   * board photo (`idx` lists their positions), each paired with its first
   * board photo; every diary with a board photo is among them.
   */
  ghost predicate CandidatesIndexedBy(ds: seq<Diario>, cs: seq<Candidate>, idx: seq<nat>) {
    && |idx| == |cs|
    && (forall j :: 0 <= j < |idx| ==> idx[j] < |ds| && CandidateOf(ds[idx[j]]) == [cs[j]])
    && (forall j, k :: 0 <= j < k < |idx| ==> idx[j] < idx[k])
    && (forall i :: 0 <= i < |ds| && CandidateOf(ds[i]) != [] ==> i in idx)
  }

  lemma {:induction false} DiaryCandidatesIndexed(ds: seq<Diario>)
    ensures CandidatesIndexedBy(ds, DiaryCandidates(ds), CandidateDiaries(ds))
  {
    if |ds| > 0 {
      var prefix, d := ds[..|ds| - 1], ds[|ds| - 1];
      DiaryCandidatesIndexed(prefix);
      if CandidateOf(d) != [] {
        IndexedAddOne(prefix, d, DiaryCandidates(prefix), CandidateDiaries(prefix));
      } else {
        IndexedAddNone(prefix, d, DiaryCandidates(prefix), CandidateDiaries(prefix));
      }
      assert prefix + [d] == ds;
    }
  }

  /** A diary with a board photo at the end adds its candidate and its position. */
  lemma IndexedAddOne(prefix: seq<Diario>, d: Diario, cs: seq<Candidate>, idx: seq<nat>)
    requires CandidatesIndexedBy(prefix, cs, idx)
    requires CandidateOf(d) != []
    ensures CandidatesIndexedBy(prefix + [d], cs + CandidateOf(d), idx + [|prefix|])
  {
    var ds, cs', idx' := prefix + [d], cs + CandidateOf(d), idx + [|prefix|];
    forall j | 0 <= j < |idx'| ensures idx'[j] < |ds| && CandidateOf(ds[idx'[j]]) == [cs'[j]] {
      if j < |idx| {
        assert idx'[j] == idx[j] < |prefix| && cs'[j] == cs[j];
        assert ds[idx[j]] == prefix[idx[j]];
      }
    }
    forall i | 0 <= i < |ds| && CandidateOf(ds[i]) != [] ensures i in idx' {
      if i < |prefix| {
        assert ds[i] == prefix[i];
        assert i in idx;
      }
    }
  }

  /** A diary without a board photo at the end changes nothing. */
  lemma IndexedAddNone(prefix: seq<Diario>, d: Diario, cs: seq<Candidate>, idx: seq<nat>)
    requires CandidatesIndexedBy(prefix, cs, idx)
    requires CandidateOf(d) == []
    ensures CandidatesIndexedBy(prefix + [d], cs + CandidateOf(d), idx)
  {
    var ds := prefix + [d];
    assert forall j :: 0 <= j < |idx| ==> idx[j] < |ds| && CandidateOf(ds[idx[j]]) == [cs[j]];
    assert forall i :: 0 <= i < |ds| && CandidateOf(ds[i]) != [] ==> i in idx;
    assert cs + CandidateOf(d) == cs;
  }

  /** Every candidate carries a board photo. */
  lemma {:induction false} CandidatesAreBoardPhotos(lotes: seq<Lote>)
    ensures forall c :: c in Candidates(lotes) ==> IsPanelPhoto(c.foto.name)
  {
    var ds := AllDiaries(lotes);
    CandidatesFollowDiaries(lotes);
    DiaryCandidatesIndexed(ds);
    var idx := CandidateDiaries(ds);
    forall c | c in DiaryCandidates(ds) ensures IsPanelPhoto(c.foto.name) {
      var j :| 0 <= j < |DiaryCandidates(ds)| && DiaryCandidates(ds)[j] == c;
      assert CandidateOf(ds[idx[j]]) == [c];
      FirstPanelPhotoIsFirst(ds[idx[j]].fotos);
    }
  }

  /**
   * The nested loops over lots and diaries, pushing one candidate for each
   * diary whose filtered photo list is not empty.
   */
  method CollectCandidates(obra: ObraFotos) returns (found: seq<Candidate>)
    ensures found == Candidates(obra.lotes)
  {
    found := [];
    for l := 0 to |obra.lotes|
      invariant found == Candidates(obra.lotes[..l])
    {
      var diarios := obra.lotes[l].diarios;
      for d := 0 to |diarios|
        invariant found == Candidates(obra.lotes[..l]) + DiaryCandidates(diarios[..d])
      {
        var diario := diarios[d];
        var fotos := PanelPhotos(diario.fotos);
        if |fotos| > 0 {
          found := found + [Candidate(diario.data, diario.id, fotos[0])];
        }
        assert diarios[..d + 1][..d] == diarios[..d];
      }
      assert obra.lotes[..l + 1][..l] == obra.lotes[..l];
      assert diarios[..|diarios|] == diarios;
    }
    assert obra.lotes[..|obra.lotes|] == obra.lotes;
  }

  predicate NewestFirst(cs: seq<Candidate>) {
    forall i, j :: 0 <= i < j < |cs| ==> cs[i].data >= cs[j].data
  }

  lemma PrependKeepsOrder(x: Candidate, s: seq<Candidate>)
    requires NewestFirst(s) && (|s| == 0 || x.data >= s[0].data)
    ensures NewestFirst([x] + s)
  {
    var r := [x] + s;
    forall i, j | 0 <= i < j < |r| ensures r[i].data >= r[j].data {
      if i == 0 && j > 1 {
        assert s[0].data >= s[j - 1].data;
      }
    }
  }

  /**
   * Puts `c` into a list ordered newest first, ahead of every entry that is
   * not newer than it: an earlier candidate stays ahead of later ones of the
   * same date.
   */
  function InsertByDate(c: Candidate, sorted: seq<Candidate>): (r: seq<Candidate>)
    ensures multiset(r) == multiset(sorted) + multiset{c}
    ensures |r| == |sorted| + 1
    ensures r[0] == c || (|sorted| > 0 && r[0] == sorted[0])
    ensures NewestFirst(sorted) ==> NewestFirst(r)
  {
    if |sorted| == 0 || c.data >= sorted[0].data then
      assert NewestFirst(sorted) ==> NewestFirst([c] + sorted) by {
        if NewestFirst(sorted) {
          PrependKeepsOrder(c, sorted);
        }
      }
      [c] + sorted
    else
      var head, tail := sorted[0], sorted[1..];
      var rest := InsertByDate(c, tail);
      assert sorted == [head] + tail;
      assert NewestFirst(sorted) ==> NewestFirst([head] + rest) by {
        if NewestFirst(sorted) {
          assert NewestFirst(tail);
          PrependKeepsOrder(head, rest);
        }
      }
      [head] + rest
  }

  /**
   * `fotosPainel.sort((a, b) => b.data - a.data)`: the candidates newest
   * first, by a stable sort (insertion of each candidate ahead of the later
   * ones of its date).
   */
  function SortNewestFirst(cs: seq<Candidate>): (sorted: seq<Candidate>)
    ensures multiset(sorted) == multiset(cs)
    ensures |sorted| == |cs|
    ensures NewestFirst(sorted)
  {
    if |cs| == 0 then
      []
    else
      assert cs == [cs[0]] + cs[1..];
      InsertByDate(cs[0], SortNewestFirst(cs[1..]))
  }

  /** The `k`-th candidate is the newest, and every earlier candidate is strictly older. */
  ghost predicate IsFirstNewest(cs: seq<Candidate>, k: int) {
    0 <= k < |cs|
    && (forall j :: 0 <= j < |cs| ==> cs[j].data <= cs[k].data)
    && (forall j :: 0 <= j < k ==> cs[j].data < cs[k].data)
  }

  /** The head of the stable sort is the first of the newest candidates. */
  lemma {:induction false} SortHeadIsFirstNewest(cs: seq<Candidate>, k: nat)
    requires IsFirstNewest(cs, k)
    ensures SortNewestFirst(cs)[0] == cs[k]
  {
    var tail := cs[1..];
    var sortedTail := SortNewestFirst(tail);
    if k == 0 {
      if |tail| > 0 {
        assert sortedTail[0] in multiset(tail);
        assert sortedTail[0] in tail;
      }
    } else {
      assert IsFirstNewest(tail, k - 1) by {
        forall j | 0 <= j < |tail| ensures tail[j].data <= tail[k - 1].data {
          assert tail[j] == cs[j + 1];
        }
        forall j | 0 <= j < k - 1 ensures tail[j].data < tail[k - 1].data {
          assert tail[j] == cs[j + 1];
        }
      }
      SortHeadIsFirstNewest(tail, k - 1);
    }
  }

  /**
   * Picks the newest candidate, keeping the earlier one on a tie: what the
   * stable sort puts first.
   */
  method NewestCandidate(cs: seq<Candidate>) returns (k: nat)
    requires |cs| > 0
    ensures IsFirstNewest(cs, k)
  {
    k := 0;
    for j := 1 to |cs|
      invariant k < j
      invariant forall i :: 0 <= i < j ==> cs[i].data <= cs[k].data
      invariant forall i :: 0 <= i < k ==> cs[i].data < cs[k].data
    {
      if cs[j].data > cs[k].data {
        k := j;
      }
    }
  }

  /**
   * The diary and photo whose board picture is requested: none when no work
   * has the id or the work has no board photo, otherwise the head of the
   * candidates sorted newest first.
   */
  function PanelPhotoFor(obras: seq<ObraFotos>, obraId: int): (choice: Option<Candidate>)
    ensures choice.Some? ==> FindWork(obras, obraId).Some?
    ensures choice.Some? ==> choice.value in Candidates(FindWork(obras, obraId).value.lotes)
  {
    match FindWork(obras, obraId)
    case None => None
    case Some(obra) =>
      var cs := Candidates(obra.lotes);
      if |cs| == 0 then
        None
      else
        var head := SortNewestFirst(cs)[0];
        assert head in multiset(cs);
        Some(head)
  }

  /** The chosen photo is a board photo. */
  lemma PanelPhotoForIsBoardPhoto(obras: seq<ObraFotos>, obraId: int)
    ensures PanelPhotoFor(obras, obraId).Some? ==> IsPanelPhoto(PanelPhotoFor(obras, obraId).value.foto.name)
  {
    if PanelPhotoFor(obras, obraId).Some? {
      CandidatesAreBoardPhotos(FindWork(obras, obraId).value.lotes);
    }
  }

  /** `fetchFotoPainel` from the `find` to the choice of `fotosPainel[0]`. */
  method ChoosePanelPhoto(obras: seq<ObraFotos>, obraId: int) returns (choice: Option<Candidate>)
    ensures choice == PanelPhotoFor(obras, obraId)
  {
    var found := FindWork(obras, obraId);
    if found.None? {
      return None;
    }
    var cs := CollectCandidates(found.value);
    if |cs| == 0 {
      return None;
    }
    var k := NewestCandidate(cs);
    SortHeadIsFirstNewest(cs, k);
    choice := Some(cs[k]);
  }

  /**
   * What the choice means: nothing exactly when no work has the id or its
   * diaries hold no board photo; otherwise a candidate of the first work with
   * the id, from a diary no other candidate is newer than, and strictly newer
   * than every candidate collected before it.
   */
  lemma PanelPhotoChoice(obras: seq<ObraFotos>, obraId: int)
    ensures PanelPhotoFor(obras, obraId).None? <==>
              FindWork(obras, obraId).None? || Candidates(FindWork(obras, obraId).value.lotes) == []
    ensures PanelPhotoFor(obras, obraId).Some? ==>
              exists k :: IsFirstNewest(Candidates(FindWork(obras, obraId).value.lotes), k)
                          && Candidates(FindWork(obras, obraId).value.lotes)[k] == PanelPhotoFor(obras, obraId).value
  {
    var found := FindWork(obras, obraId);
    if found.Some? {
      var cs := Candidates(found.value.lotes);
      if |cs| > 0 {
        NewestIndexExists(cs);
        var k :| IsFirstNewest(cs, k);
        SortHeadIsFirstNewest(cs, k);
      }
    }
  }

  /** The position of the first newest candidate. */
  lemma {:induction false} NewestIndexExists(cs: seq<Candidate>)
    requires |cs| > 0
    ensures exists k :: IsFirstNewest(cs, k)
  {
    if |cs| > 1 {
      var init := cs[..|cs| - 1];
      NewestIndexExists(init);
      var k :| IsFirstNewest(init, k);
      if cs[|cs| - 1].data > cs[k].data {
        assert IsFirstNewest(cs, |cs| - 1);
      } else {
        assert IsFirstNewest(cs, k);
      }
    } else {
      assert IsFirstNewest(cs, 0);
    }
  }
}
