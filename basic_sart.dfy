/**
 * Model C00 BasicSaRt: depth-dependent diffusion with exponential weathering, basic
 * stream power, and rock and till layers. The object owns per-node arrays that it
 * overwrites in place every step; the Landlab components it drives (flow router,
 * Fastscape eroder, weatherer, depth-dependent diffuser) and the base class's outlet
 * lowering enter as functions on the node fields.
 */
module BasicSaRtModel {
  import opened Outcomes
  import opened Lithology
  import ModelParameters

  /** The parameters after scaling by the length factor, as the constructor uses them. */
  datatype SaRtParameters = SaRtParameters(
    contactWidth: real,
    kRockSp: real,
    kTillSp: real,
    linearDiffusivity: real,
    mSp: real,
    nSp: real,
    initialSoilThickness: real,
    soilTransportDecayDepth: real,
    maxSoilProductionRate: real,
    soilProductionDecayDepth: real)

  /** The numeric keys the constructor reads without a fallback, in the order it reads them. */
  const RequiredKeys: seq<string> := [
    ModelParameters.ContactZoneWidth, ModelParameters.MSp, ModelParameters.NSp,
    ModelParameters.SoilTransportDecayDepth, ModelParameters.MaxSoilProductionRate,
    ModelParameters.SoilProductionDecayDepth]

  /** The initial soil thickness: the scaled parameter when present, else the
      default 1.0, which is not scaled. */
  function InitialSoilThickness(params: map<string, real>, lengthFactor: real): (h: real)
    ensures ModelParameters.InitialSoilThickness in params ==>
              h == lengthFactor * params[ModelParameters.InitialSoilThickness]
    ensures ModelParameters.InitialSoilThickness !in params ==> h == 1.0
  {
    if ModelParameters.InitialSoilThickness in params
    then lengthFactor * params[ModelParameters.InitialSoilThickness]
    else 1.0
  }

  /** The constructor's parameter handling. `kRockSp`, `kTillSp` and `diffusivitySp` are
      the base class's `get_parameter_from_exponent` values. A missing required key raises
      KeyError for the first such key; otherwise the lengths and the production rate are
      scaled by the length factor, the diffusivity by its square, and the exponents not
      at all. */
  function ScaleParameters(params: map<string, real>, lengthFactor: real,
                           kRockSp: real, kTillSp: real, diffusivitySp: real)
    : (r: Result<SaRtParameters, Exception>)
    ensures r.Success? <==> forall k :: k in RequiredKeys ==> k in params
    ensures r.Failure? ==> r.error.KeyError? && r.error.key in RequiredKeys && r.error.key !in params
    ensures r.Failure? ==> ModelParameters.FirstMissing(RequiredKeys, params) == Some(r.error.key)
    ensures r.Success? ==>
      && r.value.contactWidth == lengthFactor * params[RequiredKeys[0]]
      && r.value.kRockSp == kRockSp && r.value.kTillSp == kTillSp
      && r.value.linearDiffusivity == lengthFactor * lengthFactor * diffusivitySp
      && r.value.mSp == params[RequiredKeys[1]] && r.value.nSp == params[RequiredKeys[2]]
      && r.value.initialSoilThickness == InitialSoilThickness(params, lengthFactor)
      && r.value.soilTransportDecayDepth == lengthFactor * params[RequiredKeys[3]]
      && r.value.maxSoilProductionRate == lengthFactor * params[RequiredKeys[4]]
      && r.value.soilProductionDecayDepth == lengthFactor * params[RequiredKeys[5]]
  {
    match ModelParameters.FirstMissing(RequiredKeys, params)
    case Some(k) => Failure(KeyError(k))
    case None =>
      Success(SaRtParameters(
        lengthFactor * params[RequiredKeys[0]],
        kRockSp,
        kTillSp,
        lengthFactor * lengthFactor * diffusivitySp,
        params[RequiredKeys[1]],
        params[RequiredKeys[2]],
        InitialSoilThickness(params, lengthFactor),
        lengthFactor * params[RequiredKeys[3]],
        lengthFactor * params[RequiredKeys[4]],
        lengthFactor * params[RequiredKeys[5]]))
  }

  function ClipToSurface(bedrock: seq<real>, z: seq<real>): (r: seq<real>)
    requires |bedrock| == |z|
    ensures |r| == |bedrock|
    ensures forall i :: 0 <= i < |r| ==> r[i] <= z[i] && r[i] <= bedrock[i]
    ensures forall i :: 0 <= i < |r| ==> r[i] == bedrock[i] || r[i] == z[i]
  {
    seq(|bedrock|, i requires 0 <= i < |bedrock| => if bedrock[i] <= z[i] then bedrock[i] else z[i])
  }

  /** Nodes whose bedrock already lies at or below the surface keep it. */
  lemma ClipKeepsBuriedBedrock(bedrock: seq<real>, z: seq<real>, i: int)
    requires |bedrock| == |z| && 0 <= i < |z| && bedrock[i] <= z[i]
    ensures ClipToSurface(bedrock, z)[i] == bedrock[i]
  {
  }

  /** Clipping twice is clipping once. */
  lemma ClipIdempotent(bedrock: seq<real>, z: seq<real>)
    requires |bedrock| == |z|
    ensures ClipToSurface(ClipToSurface(bedrock, z), z) == ClipToSurface(bedrock, z)
  {
    var once := ClipToSurface(bedrock, z);
    var twice := ClipToSurface(once, z);
    forall i | 0 <= i < |z| ensures twice[i] == once[i] {
      ClipKeepsBuriedBedrock(once, z, i);
    }
  }

  /** The layers the weatherer and the diffuser act on. */
  datatype Layers = Layers(z: seq<real>, soil: seq<real>, bedrock: seq<real>)

  class BasicSaRt {
    /** `topographic__elevation` */
    const z: array<real>
    /** `rock_till_contact__elevation`, read from the contact raster */
    const rockTillContact: array<real>
    /** the base class's `data_nodes` */
    const dataNodes: seq<nat>
    /** `substrate__erodibility`, handed to the eroder on every step */
    const erody: array<real>
    /** the weighting function F at every node */
    const erodyWt: array<real>
    /** `soil__depth` */
    const soilDepth: array<real>
    /** `bedrock__elevation` */
    const bedrockElevation: array<real>
    const kRockSp: real
    const kTillSp: real
    /** D*, already scaled by the length factor */
    const contactWidth: real
    const exp: real -> real
    /** whether erodibility varies through time (`opt_var_precip`) */
    const optVarPrecip: bool
    /** the precipitation changer's `get_erodibility_adjustment_factor` */
    const adjustmentFactor: real -> real
    var rockErody: real
    var tillErody: real
    var modelTime: real

    ghost predicate Valid()
      reads erodyWt
    {
      && rockTillContact.Length == z.Length && erody.Length == z.Length
      && erodyWt.Length == z.Length && soilDepth.Length == z.Length
      && bedrockElevation.Length == z.Length
      && z != rockTillContact && z != erody && z != erodyWt && z != soilDepth && z != bedrockElevation
      && rockTillContact != erody && rockTillContact != erodyWt
      && rockTillContact != soilDepth && rockTillContact != bedrockElevation
      && erody != erodyWt && erody != soilDepth && erody != bedrockElevation
      && erodyWt != soilDepth && erodyWt != bedrockElevation
      && soilDepth != bedrockElevation
      && (forall k :: 0 <= k < |dataNodes| ==> dataNodes[k] < z.Length)
      && contactWidth != 0.0 && ExpLaw(exp)
      && UnitInterval(erodyWt[..])
    }

    /** `__init__` with `setup_rock_and_till`: zero erodibility and weight fields, soil
        of the initial thickness everywhere and bedrock that far below the surface. */
    constructor (z: array<real>, rockTillContact: array<real>, dataNodes: seq<nat>,
                 p: SaRtParameters, exp: real -> real, optVarPrecip: bool,
                 adjustmentFactor: real -> real, modelTime: real)
      requires rockTillContact.Length == z.Length && z != rockTillContact
      requires forall k :: 0 <= k < |dataNodes| ==> dataNodes[k] < z.Length
      requires p.contactWidth != 0.0 && ExpLaw(exp)
      ensures Valid()
      ensures fresh(erody) && fresh(erodyWt) && fresh(soilDepth) && fresh(bedrockElevation)
      ensures this.z == z && this.rockTillContact == rockTillContact && this.dataNodes == dataNodes
      ensures contactWidth == p.contactWidth && kRockSp == p.kRockSp && kTillSp == p.kTillSp
      ensures rockErody == p.kRockSp && tillErody == p.kTillSp && this.modelTime == modelTime
      ensures this.exp == exp && this.optVarPrecip == optVarPrecip
      ensures this.adjustmentFactor == adjustmentFactor
      ensures forall i :: 0 <= i < z.Length ==> erody[i] == 0.0 && erodyWt[i] == 0.0
      ensures forall i :: 0 <= i < z.Length ==>
                soilDepth[i] == p.initialSoilThickness
                && bedrockElevation[i] == z[i] - p.initialSoilThickness
                && bedrockElevation[i] + soilDepth[i] == z[i]
    {
      var n := z.Length;
      this.z := z;
      this.rockTillContact := rockTillContact;
      this.dataNodes := dataNodes;
      erody := new real[n](_ => 0.0);
      erodyWt := new real[n](_ => 0.0);
      soilDepth := new real[n](_ => 0.0);
      bedrockElevation := new real[n](_ => 0.0);
      kRockSp := p.kRockSp;
      kTillSp := p.kTillSp;
      contactWidth := p.contactWidth;
      this.exp := exp;
      this.optVarPrecip := optVarPrecip;
      this.adjustmentFactor := adjustmentFactor;
      rockErody := p.kRockSp;
      tillErody := p.kTillSp;
      this.modelTime := modelTime;
      new;
      forall i | 0 <= i < n {
        soilDepth[i] := p.initialSoilThickness;
      }
      forall i | 0 <= i < n {
        bedrockElevation[i] := z[i] - p.initialSoilThickness;
      }
    }

    /** `update_erodibility_field`: recompute the weight at the data nodes, rescale the
        rock and till erodibilities from their base values when they vary in time, and
        blend every node's erodibility from the weight. */
    method UpdateErodibilityField()
      requires Valid()
      modifies this`rockErody, this`tillErody, erodyWt, erody
      ensures Valid()
      ensures erodyWt[..] == WeightsAt(old(erodyWt[..]), z[..], rockTillContact[..], dataNodes, exp, contactWidth)
      ensures optVarPrecip ==>
                tillErody == kTillSp * adjustmentFactor(modelTime)
                && rockErody == kRockSp * adjustmentFactor(modelTime)
      ensures !optVarPrecip ==> tillErody == old(tillErody) && rockErody == old(rockErody)
      ensures erody[..] == BlendAll(erodyWt[..], tillErody, rockErody)
      ensures forall i :: 0 <= i < erody.Length ==> Between(erody[i], rockErody, tillErody)
    {
      WeightsStayInUnitInterval(erodyWt[..], z[..], rockTillContact[..], dataNodes, exp, contactWidth);
      SetWeights(erodyWt, z[..], rockTillContact[..], dataNodes, exp, contactWidth);
      if optVarPrecip {
        var factor := adjustmentFactor(modelTime);
        tillErody := kTillSp * factor;
        rockErody := kRockSp * factor;
      }
      Overwrite(erody, BlendAll(erodyWt[..], tillErody, rockErody));
      BlendAllBetween(erodyWt[..], tillErody, rockErody);
    }

    /** The bedrock reset after water erosion: `b[:] = np.minimum(b, z)`. */
    method ClipBedrockToSurface()
      requires Valid()
      modifies bedrockElevation
      ensures Valid()
      ensures bedrockElevation[..] == ClipToSurface(old(bedrockElevation[..]), z[..])
      ensures forall i :: 0 <= i < z.Length ==> bedrockElevation[i] <= z[i]
    {
      ghost var clipped := ClipToSurface(bedrockElevation[..], z[..]);
      forall i | 0 <= i < bedrockElevation.Length {
        bedrockElevation[i] := if bedrockElevation[i] <= z[i] then bedrockElevation[i] else z[i];
      }
      assert bedrockElevation[..] == clipped;
    }

    /** The water-erosion half of `run_one_step`: route flow, pick the flooded nodes,
        update erodibility, erode off the flooded nodes, and clip bedrock to the eroded
        surface. The soil field is not touched. */
    method ErodeAndClip(dt: real,
                        route: seq<real> -> seq<int>,
                        erode: (seq<real>, seq<nat>, seq<real>, real) -> seq<real>)
      requires Valid()
      requires forall s, f, k, t :: |erode(s, f, k, t)| == |s|
      modifies this`rockErody, this`tillErody, z, erodyWt, erody, bedrockElevation
      ensures Valid()
      ensures erodyWt[..] == WeightsAt(old(erodyWt[..]), old(z[..]), rockTillContact[..], dataNodes, exp, contactWidth)
      ensures optVarPrecip ==>
                tillErody == kTillSp * adjustmentFactor(modelTime)
                && rockErody == kRockSp * adjustmentFactor(modelTime)
      ensures !optVarPrecip ==> tillErody == old(tillErody) && rockErody == old(rockErody)
      ensures erody[..] == BlendAll(erodyWt[..], tillErody, rockErody)
      ensures z[..] == erode(old(z[..]), FloodedNodes(route(old(z[..]))), erody[..], dt)
      ensures bedrockElevation[..] == ClipToSurface(old(bedrockElevation[..]), z[..])
    {
      ghost var z0, bedrock0 := z[..], bedrockElevation[..];
      var flooded := FloodedNodes(route(z[..]));
      UpdateErodibilityField();
      assert z[..] == z0 && bedrockElevation[..] == bedrock0;
      var eroded := erode(z[..], flooded, erody[..], dt);
      Overwrite(z, eroded);
      ClipBedrockToSurface();
    }

    /** `run_one_step(dt)`: route flow, pick the flooded nodes, update erodibility, erode
        off the flooded nodes, clip bedrock to the eroded surface, produce and move soil,
        advance the clock, then lower the outlet. `route` yields the depression finder's
        flood status for a surface; `erode` is the Fastscape eroder given the surface, the
        flooded nodes, the erodibility field and dt; `produce` is the weatherer's soil
        production rate; `diffuse` is the depth-dependent diffuser; `lowerOutlet` is the
        base class's `update_outlet`, given the surface, the new model time and dt. */
    method RunOneStep(dt: real,
                      route: seq<real> -> seq<int>,
                      erode: (seq<real>, seq<nat>, seq<real>, real) -> seq<real>,
                      produce: seq<real> -> seq<real>,
                      diffuse: (Layers, seq<real>, real) -> Layers,
                      lowerOutlet: (seq<real>, real, real) -> seq<real>)
      requires Valid()
      requires forall s, f, k, t :: |erode(s, f, k, t)| == |s|
      requires forall l, p, t :: |diffuse(l, p, t).z| == |l.z| && |diffuse(l, p, t).soil| == |l.soil|
                                 && |diffuse(l, p, t).bedrock| == |l.bedrock|
      requires forall s, m, t :: |lowerOutlet(s, m, t)| == |s|
      modifies this`rockErody, this`tillErody, this`modelTime
      modifies z, erodyWt, erody, soilDepth, bedrockElevation
      ensures Valid()
      ensures modelTime == old(modelTime) + dt
      ensures erodyWt[..] == WeightsAt(old(erodyWt[..]), old(z[..]), rockTillContact[..], dataNodes, exp, contactWidth)
      ensures optVarPrecip ==>
                tillErody == kTillSp * adjustmentFactor(old(modelTime))
                && rockErody == kRockSp * adjustmentFactor(old(modelTime))
      ensures !optVarPrecip ==> tillErody == old(tillErody) && rockErody == old(rockErody)
      ensures erody[..] == BlendAll(erodyWt[..], tillErody, rockErody)
      ensures var eroded := erode(old(z[..]), FloodedNodes(route(old(z[..]))), erody[..], dt);
              var after := diffuse(Layers(eroded, old(soilDepth[..]),
                                          ClipToSurface(old(bedrockElevation[..]), eroded)),
                                   produce(old(soilDepth[..])), dt);
              && z[..] == lowerOutlet(after.z, modelTime, dt)
              && soilDepth[..] == after.soil
              && bedrockElevation[..] == after.bedrock
    {
      ErodeAndClip(dt, route, erode);
      ProduceDiffuseAndLower(dt, produce, diffuse, lowerOutlet);
    }

    /** The hillslope half of `run_one_step`: produce soil from the current depth, let the
        diffuser move it, advance the clock and lower the outlet. */
    method ProduceDiffuseAndLower(dt: real,
                                  produce: seq<real> -> seq<real>,
                                  diffuse: (Layers, seq<real>, real) -> Layers,
                                  lowerOutlet: (seq<real>, real, real) -> seq<real>)
      requires Valid()
      requires forall l, p, t :: |diffuse(l, p, t).z| == |l.z| && |diffuse(l, p, t).soil| == |l.soil|
                                 && |diffuse(l, p, t).bedrock| == |l.bedrock|
      requires forall s, m, t :: |lowerOutlet(s, m, t)| == |s|
      modifies this`modelTime, z, soilDepth, bedrockElevation
      ensures Valid()
      ensures modelTime == old(modelTime) + dt
      ensures var after := diffuse(Layers(old(z[..]), old(soilDepth[..]), old(bedrockElevation[..])),
                                   produce(old(soilDepth[..])), dt);
              && z[..] == lowerOutlet(after.z, modelTime, dt)
              && soilDepth[..] == after.soil
              && bedrockElevation[..] == after.bedrock
    {
      var production := produce(soilDepth[..]);
      var after := diffuse(Layers(z[..], soilDepth[..], bedrockElevation[..]), production, dt);
      SetLayers(after);
      modelTime := modelTime + dt;
      var lowered := lowerOutlet(z[..], modelTime, dt);
      Overwrite(z, lowered);
    }

    /** The diffuser's in-place update of the surface, soil and bedrock fields. */
    method SetLayers(l: Layers)
      requires Valid()
      requires |l.z| == z.Length && |l.soil| == z.Length && |l.bedrock| == z.Length
      modifies z, soilDepth, bedrockElevation
      ensures Valid()
      ensures z[..] == l.z && soilDepth[..] == l.soil && bedrockElevation[..] == l.bedrock
    {
      Overwrite(z, l.z);
      Overwrite(soilDepth, l.soil);
      Overwrite(bedrockElevation, l.bedrock);
    }
  }
}
