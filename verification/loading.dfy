/**
  The interaction specification: an N x N matrix of force coefficients, one
  row per interaction type, either validated after loading or generated from
  a stream of random draws.
 */
module Loading {

  /** One row: the coefficients a particle of this type applies to each type. */
  datatype Interaction = Interaction(forceCoeffs: seq<real>)

  datatype ParticleSpec = ParticleSpec(interactions: seq<Interaction>)

  /** A row whose length is not the number of rows. */
  datatype MalformedInteractionError = MalformedInteractionError(totalInteractions: nat, totalCoeffs: nat)

  /** The unit-valued result of validating one row. */
  datatype Check = Pass | Fail(error: MalformedInteractionError)

  datatype SpecResult = Ok(spec: ParticleSpec) | Err(error: MalformedInteractionError)

  /** Every row has exactly as many coefficients as there are rows. */
  predicate IsSquare(rows: seq<Interaction>) {
    forall i :: 0 <= i < |rows| ==> |rows[i].forceCoeffs| == |rows|
  }

  /** Row `i` is malformed and every row before it is well formed. */
  predicate FirstMalformed(rows: seq<Interaction>, i: int) {
    && 0 <= i < |rows|
    && |rows[i].forceCoeffs| != |rows|
    && forall j :: 0 <= j < i ==> |rows[j].forceCoeffs| == |rows|
  }

  function ValidateSingleInteraction(interaction: Interaction, totalInteractions: nat): (r: Check)
    ensures r.Pass? <==> |interaction.forceCoeffs| == totalInteractions
    ensures r.Fail? ==>
              r.error.totalInteractions == totalInteractions && r.error.totalCoeffs == |interaction.forceCoeffs|
  {
    var totalCoeffs := |interaction.forceCoeffs|;
    if totalCoeffs == totalInteractions then Pass
    else Fail(MalformedInteractionError(totalInteractions, totalCoeffs))
  }

  /** `Result::and`: the first failure wins. */
  function And(acc: Check, r: Check): Check {
    if acc.Fail? then acc else r
  }

  /**
    Left fold of `And` over the checks, starting from `Pass`: it passes
    exactly when every check passes, and otherwise yields the earliest
    failure.
   */
  function FoldAnd(checks: seq<Check>): (r: Check)
    ensures r.Pass? <==> forall i :: 0 <= i < |checks| ==> checks[i].Pass?
    ensures r.Fail? ==> exists i :: 0 <= i < |checks| && checks[i] == r
                          && forall j :: 0 <= j < i ==> checks[j].Pass?
  {
    if |checks| == 0 then Pass
    else
      var acc := FoldAnd(checks[..|checks| - 1]);
      assert forall i :: 0 <= i < |checks| - 1 ==> checks[..|checks| - 1][i] == checks[i];
      And(acc, checks[|checks| - 1])
  }

  /** The per-row checks of a list, each against the number of rows. */
  function RowChecks(rows: seq<Interaction>): (checks: seq<Check>)
    ensures |checks| == |rows|
    ensures forall i :: 0 <= i < |rows| ==> checks[i] == ValidateSingleInteraction(rows[i], |rows|)
  {
    seq(|rows|, i requires 0 <= i < |rows| => ValidateSingleInteraction(rows[i], |rows|))
  }

  /**
    Accepts a square list unchanged; otherwise reports the first malformed
    row, with the expected and the actual number of coefficients.
   */
  function ValidateInteractionList(interactions: seq<Interaction>): (r: SpecResult)
    ensures r.Ok? <==> IsSquare(interactions)
    ensures r.Ok? ==> r.spec.interactions == interactions
    ensures r.Err? ==> exists i :: FirstMalformed(interactions, i)
                          && r.error == MalformedInteractionError(|interactions|, |interactions[i].forceCoeffs|)
  {
    match FoldAnd(RowChecks(interactions))
    case Pass => Ok(ParticleSpec(interactions))
    case Fail(e) => Err(e)
  }

  /** The empty list of interactions is a valid (empty) specification. */
  lemma EmptyListIsValid()
    ensures ValidateInteractionList([]) == Ok(ParticleSpec([]))
  {
  }

  /** One generated coefficient, from a draw `u` that lies in `[0, 1)`. */
  function Coefficient(u: real): (c: real)
    ensures 0.0 <= u < 1.0 ==> -500.0 <= c < 500.0
  {
    1000.0 * u - 500.0
  }

  /** Every draw of the random stream lies in `[0, 1)`. */
  predicate UnitDraws(draws: seq<real>) {
    forall j :: 0 <= j < |draws| ==> 0.0 <= draws[j] < 1.0
  }

  /** The coefficients made from a run of draws, one per draw, in order. */
  function Coefficients(draws: seq<real>): (cs: seq<real>)
    ensures |cs| == |draws|
    ensures forall j :: 0 <= j < |draws| ==> cs[j] == Coefficient(draws[j])
  {
    seq(|draws|, j requires 0 <= j < |draws| => Coefficient(draws[j]))
  }

  lemma CoefficientsAppend(a: seq<real>, b: seq<real>)
    ensures Coefficients(a + b) == Coefficients(a) + Coefficients(b)
  {
  }

  /** Every coefficient of the row lies in `[-500, 500)`. */
  predicate InGeneratedRange(row: Interaction) {
    forall k :: 0 <= k < |row.forceCoeffs| ==> -500.0 <= row.forceCoeffs[k] < 500.0
  }

  /** A row of `typeCount` coefficients made from the next `typeCount` draws. */
  function GenerateSingleInteraction(draws: seq<real>, typeCount: nat): (r: Interaction)
    requires typeCount <= |draws|
    ensures |r.forceCoeffs| == typeCount
    ensures UnitDraws(draws) ==> InGeneratedRange(r)
  {
    Interaction(Coefficients(draws[..typeCount]))
  }

  /** All coefficients of a list of rows, row after row. */
  function Flatten(rows: seq<Interaction>): seq<real> {
    if |rows| == 0 then []
    else Flatten(rows[..|rows| - 1]) + rows[|rows| - 1].forceCoeffs
  }

  lemma FlattenSnoc(rows: seq<Interaction>, row: Interaction)
    ensures Flatten(rows + [row]) == Flatten(rows) + row.forceCoeffs
  {
    assert (rows + [row])[..|rows|] == rows;
  }

  /** The coefficients of a longer prefix of the draws extend those of the shorter one. */
  lemma CoefficientsExtend(draws: seq<real>, used: nat, n: nat)
    requires used + n <= |draws|
    ensures Coefficients(draws[..used + n]) == Coefficients(draws[..used]) + Coefficients(draws[used..][..n])
  {
    assert draws[..used + n] == draws[..used] + draws[used..][..n];
    CoefficientsAppend(draws[..used], draws[used..][..n]);
  }

  lemma {:induction false} MulStep(i: nat, n: nat)
    requires i < n
    ensures (i + 1) * n == i * n + n
    ensures i * n + n <= n * n
  {
    var k: nat := n - i - 1;
    assert n * n == (i + 1 + k) * n;
    assert (i + 1 + k) * n == i * n + n + k * n;
  }

  /**
    A specification of `typeCount` rows of `typeCount` coefficients, drawn
    row by row from the stream, so that read row after row the coefficients
    follow the draws. The result always passes validation.
   */
  method GenerateParticleSpec(draws: seq<real>, typeCount: nat) returns (spec: ParticleSpec)
    requires typeCount * typeCount <= |draws|
    ensures |spec.interactions| == typeCount
    ensures ValidateInteractionList(spec.interactions) == Ok(spec)
    ensures Flatten(spec.interactions) == Coefficients(draws[..typeCount * typeCount])
    ensures UnitDraws(draws) ==>
              forall i :: 0 <= i < typeCount ==> InGeneratedRange(spec.interactions[i])
  {
    var rows: seq<Interaction> := [];
    var used := 0;
    for i := 0 to typeCount
      invariant |rows| == i
      invariant used == i * typeCount && used <= |draws|
      invariant forall r :: 0 <= r < i ==> |rows[r].forceCoeffs| == typeCount
      invariant Flatten(rows) == Coefficients(draws[..used])
      invariant UnitDraws(draws) ==> forall r :: 0 <= r < i ==> InGeneratedRange(rows[r])
    {
      MulStep(i, typeCount);
      var row := GenerateSingleInteraction(draws[used..], typeCount);
      assert UnitDraws(draws) ==> UnitDraws(draws[used..]);
      CoefficientsExtend(draws, used, typeCount);
      FlattenSnoc(rows, row);
      rows := rows + [row];
      used := used + typeCount;
    }
    spec := ParticleSpec(rows);
    assert IsSquare(rows);
  }
}
