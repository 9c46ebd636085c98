/**
 * The list of public works both dashboards display: normalising the records
 * the data service returns (src/App.tsx), the totals, the count of works per
 * region and the chart colours (src/App.tsx, src/App4.tsx).
 */
module Works {
  import opened Wrappers
  import opened Slices

  /**
   * A record as the data service returns it. A text or number field that may
   * be missing or empty is an `Option`; `numero` is given as the text a
   * template literal prints for it.
   */
  datatype RawObra = RawObra(
    id: int,
    apelido: Option<string>,
    numero: string,
    situacao: Option<string>,
    localizacao: Option<string>,
    regiao: Option<string>,
    nomeContratado: Option<string>,
    valorTotalContratos: Option<real>,
    progresso: Option<real>,
    dataInicio: Option<string>,
    previsaoTermino: Option<string>)

  /** A work as the dashboards display it. */
  datatype Obra = Obra(
    id: int,
    descricao: string,
    regiao: string,
    valorTotal: real,
    nomeContratado: string,
    progresso: real,
    dataInicio: Option<string>,
    previsaoTermino: Option<string>,
    situacaoDescricao: string,
    localizacao: string)

  const UntitledPrefix := "Obra "
  const UnknownRegion := "Desconhecida"
  const NotInformed := "Não informado"
  const InProgress := "Em andamento"
  const NoLocation := "Local não especificado"

  /** A text field that `||` keeps: present and not empty. */
  predicate Truthy(s: Option<string>) {
    s.Some? && s.value != ""
  }

  /** A number field that `||` keeps: present and not zero. */
  predicate TruthyNumber(x: Option<real>) {
    x.Some? && x.value != 0.0
  }

  function TextOr(s: Option<string>, default: string): string {
    if Truthy(s) then s.value else default
  }

  function NumberOrZero(x: Option<real>): real {
    if TruthyNumber(x) then x.value else 0.0
  }

  /** Every text field the dashboards print is filled in. */
  predicate WellFormed(o: Obra) {
    o.descricao != "" && o.regiao != "" && o.nomeContratado != ""
    && o.situacaoDescricao != "" && o.localizacao != ""
  }

  /**
   * Fills each missing or empty field of a record with its default. The
   * result is well formed, and every field is the record's own value when
   * that value is truthy.
   */
  function Normalize(raw: RawObra): (o: Obra)
    ensures WellFormed(o)
    ensures o.id == raw.id && o.dataInicio == raw.dataInicio && o.previsaoTermino == raw.previsaoTermino
    ensures o.descricao == if Truthy(raw.apelido) then raw.apelido.value else UntitledPrefix + raw.numero
    ensures o.regiao == if Truthy(raw.regiao) then raw.regiao.value else UnknownRegion
    ensures o.valorTotal == if TruthyNumber(raw.valorTotalContratos) then raw.valorTotalContratos.value else 0.0
    ensures o.nomeContratado == if Truthy(raw.nomeContratado) then raw.nomeContratado.value else NotInformed
    ensures o.progresso == if TruthyNumber(raw.progresso) then raw.progresso.value else 0.0
    ensures o.situacaoDescricao == if Truthy(raw.situacao) then raw.situacao.value else InProgress
    ensures o.localizacao == if Truthy(raw.localizacao) then raw.localizacao.value else NoLocation
  {
    Obra(
      raw.id,
      TextOr(raw.apelido, UntitledPrefix + raw.numero),
      TextOr(raw.regiao, UnknownRegion),
      NumberOrZero(raw.valorTotalContratos),
      TextOr(raw.nomeContratado, NotInformed),
      NumberOrZero(raw.progresso),
      raw.dataInicio,
      raw.previsaoTermino,
      TextOr(raw.situacao, InProgress),
      TextOr(raw.localizacao, NoLocation))
  }

  /** The record the data service would send for a displayed work. */
  function ToRaw(o: Obra, numero: string): RawObra {
    RawObra(o.id, Some(o.descricao), numero, Some(o.situacaoDescricao), Some(o.localizacao),
            Some(o.regiao), Some(o.nomeContratado), Some(o.valorTotal), Some(o.progresso),
            o.dataInicio, o.previsaoTermino)
  }

  /**
   * Normalising never touches a work whose fields are all filled in, so it is
   * idempotent: a normalised work sent back through it comes out unchanged.
   */
  lemma NormalizeKeepsWellFormed(o: Obra, numero: string)
    requires WellFormed(o)
    ensures Normalize(ToRaw(o, numero)) == o
  {
  }

  /** `obrasApi.map(...)`: one normalised work per record, in the same order. */
  function NormalizeAll(raws: seq<RawObra>): (obras: seq<Obra>)
    ensures |obras| == |raws|
    ensures forall i :: 0 <= i < |raws| ==> obras[i] == Normalize(raws[i])
  {
    seq(|raws|, i requires 0 <= i < |raws| => Normalize(raws[i]))
  }

  /** `totalInvestido`: the contract values added up from the first work to the last. */
  function TotalInvested(obras: seq<Obra>): (total: real)
    ensures (forall i :: 0 <= i < |obras| ==> obras[i].valorTotal >= 0.0) ==> total >= 0.0
    ensures (forall i :: 0 <= i < |obras| ==> obras[i].valorTotal == 0.0) ==> total == 0.0
  {
    if |obras| == 0 then 0.0 else TotalInvested(obras[..|obras| - 1]) + obras[|obras| - 1].valorTotal
  }

  /** The total of a list split in two is the sum of the totals of its parts. */
  lemma {:induction false} TotalInvestedAppend(a: seq<Obra>, b: seq<Obra>)
    ensures TotalInvested(a + b) == TotalInvested(a) + TotalInvested(b)
    decreases |b|
  {
    if |b| == 0 {
      assert a + b == a;
    } else {
      var b' := b[..|b| - 1];
      assert (a + b)[..|a + b| - 1] == a + b';
      TotalInvestedAppend(a, b');
    }
  }

  /** The total grows by exactly the value of each work, whatever it is. */
  lemma {:induction false} TotalInvestedIsSum(obras: seq<Obra>, i: nat)
    requires i < |obras|
    ensures TotalInvested(obras) == TotalInvested(obras[..i]) + obras[i].valorTotal + TotalInvested(obras[i + 1..])
  {
    assert obras == obras[..i] + ([obras[i]] + obras[i + 1..]);
    TotalInvestedAppend(obras[..i], [obras[i]] + obras[i + 1..]);
    TotalInvestedAppend([obras[i]], obras[i + 1..]);
    assert [obras[i]][..0] == [];
  }

  predicate Distinct(rs: seq<string>) {
    forall i, j :: 0 <= i < j < |rs| ==> rs[i] != rs[j]
  }

  ghost predicate HasRegion(obras: seq<Obra>, r: string) {
    exists i :: 0 <= i < |obras| && obras[i].regiao == r
  }

  lemma HasRegionSnoc(obras: seq<Obra>, r: string)
    requires |obras| > 0
    ensures HasRegion(obras, r) <==> HasRegion(obras[..|obras| - 1], r) || obras[|obras| - 1].regiao == r
  {
    var prefix := obras[..|obras| - 1];
    if HasRegion(prefix, r) {
      var i :| 0 <= i < |prefix| && prefix[i].regiao == r;
      assert obras[i].regiao == r;
    }
    if HasRegion(obras, r) && obras[|obras| - 1].regiao != r {
      var i :| 0 <= i < |obras| && obras[i].regiao == r;
      assert prefix[i].regiao == r;
    }
  }

  /** How many works lie in `region`. */
  function CountIn(obras: seq<Obra>, region: string): (c: nat)
    ensures c <= |obras|
  {
    if |obras| == 0 then 0
    else CountIn(obras[..|obras| - 1], region) + (if obras[|obras| - 1].regiao == region then 1 else 0)
  }

  /** A region has a positive count exactly when some work lies in it. */
  lemma {:induction false} CountInPositive(obras: seq<Obra>, region: string)
    ensures CountIn(obras, region) > 0 <==> HasRegion(obras, region)
  {
    if |obras| > 0 {
      HasRegionSnoc(obras, region);
      CountInPositive(obras[..|obras| - 1], region);
    }
  }

  /**
   * The regions of the works without repeats, in order of first appearance:
   * the order in which the counting object gains its keys.
   */
  function RegionsOf(obras: seq<Obra>): (rs: seq<string>)
    ensures Distinct(rs)
    ensures forall r :: r in rs <==> HasRegion(obras, r)
  {
    if |obras| == 0 then
      []
    else
      var prev := RegionsOf(obras[..|obras| - 1]);
      var r := obras[|obras| - 1].regiao;
      HasRegionSnoc(obras, r);
      forall r' ensures HasRegion(obras, r') <==> HasRegion(obras[..|obras| - 1], r') || r == r' {
        HasRegionSnoc(obras, r');
      }
      if r in prev then prev else prev + [r]
  }

  /** Counting over a list split in two adds the counts of the two parts. */
  lemma {:induction false} CountInAppend(a: seq<Obra>, b: seq<Obra>, region: string)
    ensures CountIn(a + b, region) == CountIn(a, region) + CountIn(b, region)
    decreases |b|
  {
    if |b| == 0 {
      assert a + b == a;
    } else {
      assert (a + b)[..|a + b| - 1] == a + b[..|b| - 1];
      CountInAppend(a, b[..|b| - 1], region);
    }
  }

  /** One step of the counting loop: the regions and counts after one more work. */
  lemma CountStep(obras: seq<Obra>, i: nat)
    requires i < |obras|
    ensures RegionsOf(obras[..i + 1]) ==
              if obras[i].regiao in RegionsOf(obras[..i]) then RegionsOf(obras[..i])
              else RegionsOf(obras[..i]) + [obras[i].regiao]
    ensures forall r :: CountIn(obras[..i + 1], r) == CountIn(obras[..i], r) + (if obras[i].regiao == r then 1 else 0)
  {
    assert obras[..i + 1][..i] == obras[..i];
  }

  /**
   * `obrasPorRegiao`: walks the works once, adding one to the entry of each
   * work's region and creating the entry, as a new last key, the first time
   * the region appears. Every region present gets exactly its number of
   * works, and no other key exists.
   */
  method CountByRegion(obras: seq<Obra>) returns (counts: map<string, nat>, keys: seq<string>)
    ensures keys == RegionsOf(obras)
    ensures forall r :: r in counts <==> HasRegion(obras, r)
    ensures forall r :: r in counts ==> counts[r] == CountIn(obras, r)
  {
    counts, keys := map[], [];
    for i := 0 to |obras|
      invariant keys == RegionsOf(obras[..i])
      invariant forall r :: r in counts <==> r in keys
      invariant forall r :: r in counts ==> counts[r] == CountIn(obras[..i], r)
    {
      CountStep(obras, i);
      var region := obras[i].regiao;
      CountInPositive(obras[..i], region);
      var sofar := if region in counts then counts[region] else 0;
      if region !in counts {
        keys := keys + [region];
      }
      ghost var before := counts;
      counts := counts[region := sofar + 1];
      forall r | r in counts ensures counts[r] == CountIn(obras[..i + 1], r) {
        if r != region {
          assert counts[r] == before[r];
        }
      }
    }
    assert obras[..|obras|] == obras;
  }

  /** The counts of the regions in `rs`, added up. */
  function SumCounts(obras: seq<Obra>, rs: seq<string>): nat {
    if |rs| == 0 then 0 else SumCounts(obras, rs[..|rs| - 1]) + CountIn(obras, rs[|rs| - 1])
  }

  lemma {:induction false} SumCountsStep(obras: seq<Obra>, o: Obra, rs: seq<string>)
    requires Distinct(rs)
    ensures SumCounts(obras + [o], rs) == SumCounts(obras, rs) + (if o.regiao in rs then 1 else 0)
  {
    assert (obras + [o])[..|obras|] == obras;
    if |rs| > 0 {
      var prefix := rs[..|rs| - 1];
      assert Distinct(prefix);
      assert rs == prefix + [rs[|rs| - 1]];
      SumCountsStep(obras, o, prefix);
    }
  }

  /**
   * Each work is counted in exactly one region: the counts of all regions
   * present add up to the number of works.
   */
  lemma {:induction false} RegionCountsSum(obras: seq<Obra>)
    ensures SumCounts(obras, RegionsOf(obras)) == |obras|
  {
    if |obras| > 0 {
      var prefix := obras[..|obras| - 1];
      var o := obras[|obras| - 1];
      assert obras == prefix + [o];
      var rs := RegionsOf(prefix);
      RegionCountsSum(prefix);
      SumCountsStep(prefix, o, rs);
      if o.regiao !in rs {
        CountInPositive(prefix, o.regiao);
        assert (rs + [o.regiao])[..|rs|] == rs;
        SumCountsStep(prefix, o, rs);
      }
    }
  }

  /** The chart's bar colours, in the order of the regions. */
  const Palette: seq<string> := ["#FF6384", "#36A2EB", "#FFCE56", "#4BC0C0", "#9966FF", "#FF9F40"]

  /**
   * `chartColors.slice(0, k)` for k regions: min(k, 6) colours, the i-th
   * being the i-th palette colour, handed to the chart for the i-th region.
   */
  function ChartColours(regionCount: nat): (colours: seq<string>)
    ensures |colours| == Min(regionCount, |Palette|)
    ensures forall i :: 0 <= i < |colours| ==> colours[i] == Palette[i]
  {
    Slice(Palette, 0, regionCount)
  }
}
