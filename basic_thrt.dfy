/**
 * Model 802 BasicThRt: linear diffusion, stream power with a smoothed threshold, and
 * rock and till layers. The erodibility and threshold arrays are created once and handed
 * to the eroder at construction; every step overwrites their contents in place, so the
 * eroder sees the new values through the same arrays.
 */
module BasicThRtModel {
  import opened Outcomes
  import opened Lithology
  import ModelParameters

  /** The parameters after scaling by the length factor. */
  datatype ThRtParameters = ThRtParameters(
    contactWidth: real,
    kRockSp: real,
    kTillSp: real,
    rockThreshold: real,
    tillThreshold: real,
    linearDiffusivity: real,
    mSp: real,
    nSp: real)

  /** The numeric keys the constructor reads, in the order it reads them. */
  const RequiredKeys: seq<string> :=
    [ModelParameters.ContactZoneWidth, ModelParameters.MSp, ModelParameters.NSp]

  /** The constructor's parameter handling. The erodibilities, thresholds and diffusivity
      arrive as the base class's `get_parameter_from_exponent` values. A missing key raises
      KeyError for the first such key; the contact width is scaled by the length factor,
      the diffusivity by its square, and the thresholds and exponents not at all. */
  function ScaleParameters(params: map<string, real>, lengthFactor: real,
                           kRockSp: real, kTillSp: real,
                           rockThreshold: real, tillThreshold: real, diffusivitySp: real)
    : (r: Result<ThRtParameters, Exception>)
    ensures r.Success? <==> forall k :: k in RequiredKeys ==> k in params
    ensures r.Failure? ==> r.error.KeyError? && r.error.key in RequiredKeys && r.error.key !in params
    ensures r.Failure? ==> ModelParameters.FirstMissing(RequiredKeys, params) == Some(r.error.key)
    ensures r.Success? ==>
      && r.value.contactWidth == lengthFactor * params[RequiredKeys[0]]
      && r.value.kRockSp == kRockSp && r.value.kTillSp == kTillSp
      && r.value.rockThreshold == rockThreshold && r.value.tillThreshold == tillThreshold
      && r.value.linearDiffusivity == lengthFactor * lengthFactor * diffusivitySp
      && r.value.mSp == params[RequiredKeys[1]] && r.value.nSp == params[RequiredKeys[2]]
  {
    match ModelParameters.FirstMissing(RequiredKeys, params)
    case Some(k) => Failure(KeyError(k))
    case None =>
      Success(ThRtParameters(
        lengthFactor * params[RequiredKeys[0]],
        kRockSp, kTillSp, rockThreshold, tillThreshold,
        lengthFactor * lengthFactor * diffusivitySp,
        params[RequiredKeys[1]], params[RequiredKeys[2]]))
  }

  class BasicThRt {
    /** `topographic__elevation` */
    const z: array<real>
    /** `rock_till_contact__elevation`, read from the contact raster */
    const rockTillContact: array<real>
    /** the base class's `data_nodes` */
    const dataNodes: seq<nat>
    /** `substrate__erodibility`, the eroder's `K_sp` array */
    const erody: array<real>
    /** `erosion__threshold`, the eroder's `threshold_sp` array */
    const threshold: array<real>
    /** the weighting function F at every node */
    const erodyWt: array<real>
    const kRockSp: real
    const kTillSp: real
    const rockThresh: real
    const tillThresh: real
    /** D*, already scaled by the length factor */
    const contactWidth: real
    const exp: real -> real
    /** whether erodibility varies through time (`opt_var_precip`) */
    const optVarPrecip: bool
    /** the precipitation changer's `get_erodibility_adjustment_factor` */
    const adjustmentFactor: real -> real
    var rockErody: real
    var tillErody: real
    var modelTime: real

    ghost predicate Valid()
      reads erodyWt
    {
      && rockTillContact.Length == z.Length && erody.Length == z.Length
      && threshold.Length == z.Length && erodyWt.Length == z.Length
      && z != rockTillContact && z != erody && z != threshold && z != erodyWt
      && rockTillContact != erody && rockTillContact != threshold && rockTillContact != erodyWt
      && erody != threshold && erody != erodyWt && threshold != erodyWt
      && (forall k :: 0 <= k < |dataNodes| ==> dataNodes[k] < z.Length)
      && contactWidth != 0.0 && ExpLaw(exp)
      && UnitInterval(erodyWt[..])
    }

    /** `__init__` with `setup_rock_and_till`: zero erodibility, threshold and weight fields. */
    constructor (z: array<real>, rockTillContact: array<real>, dataNodes: seq<nat>,
                 p: ThRtParameters, exp: real -> real, optVarPrecip: bool,
                 adjustmentFactor: real -> real, modelTime: real)
      requires rockTillContact.Length == z.Length && z != rockTillContact
      requires forall k :: 0 <= k < |dataNodes| ==> dataNodes[k] < z.Length
      requires p.contactWidth != 0.0 && ExpLaw(exp)
      ensures Valid()
      ensures fresh(erody) && fresh(threshold) && fresh(erodyWt)
      ensures this.z == z && this.rockTillContact == rockTillContact && this.dataNodes == dataNodes
      ensures contactWidth == p.contactWidth && kRockSp == p.kRockSp && kTillSp == p.kTillSp
      ensures rockThresh == p.rockThreshold && tillThresh == p.tillThreshold
      ensures rockErody == p.kRockSp && tillErody == p.kTillSp && this.modelTime == modelTime
      ensures this.exp == exp && this.optVarPrecip == optVarPrecip
      ensures this.adjustmentFactor == adjustmentFactor
      ensures forall i :: 0 <= i < z.Length ==> erody[i] == 0.0 && threshold[i] == 0.0 && erodyWt[i] == 0.0
    {
      var n := z.Length;
      this.z := z;
      this.rockTillContact := rockTillContact;
      this.dataNodes := dataNodes;
      erody := new real[n](_ => 0.0);
      threshold := new real[n](_ => 0.0);
      erodyWt := new real[n](_ => 0.0);
      kRockSp := p.kRockSp;
      kTillSp := p.kTillSp;
      rockThresh := p.rockThreshold;
      tillThresh := p.tillThreshold;
      contactWidth := p.contactWidth;
      this.exp := exp;
      this.optVarPrecip := optVarPrecip;
      this.adjustmentFactor := adjustmentFactor;
      rockErody := p.kRockSp;
      tillErody := p.kTillSp;
      this.modelTime := modelTime;
    }

    /** `update_erodibility_and_threshold_fields`: recompute the weight at the data nodes,
        rescale the erodibilities (never the thresholds) from their base values when they
        vary in time, and blend both fields in place from the same weight. */
    method UpdateErodibilityAndThresholdFields()
      requires Valid()
      modifies this`rockErody, this`tillErody, erodyWt, erody, threshold
      ensures Valid()
      ensures erodyWt[..] == WeightsAt(old(erodyWt[..]), z[..], rockTillContact[..], dataNodes, exp, contactWidth)
      ensures optVarPrecip ==>
                tillErody == kTillSp * adjustmentFactor(modelTime)
                && rockErody == kRockSp * adjustmentFactor(modelTime)
      ensures !optVarPrecip ==> tillErody == old(tillErody) && rockErody == old(rockErody)
      ensures erody[..] == BlendAll(erodyWt[..], tillErody, rockErody)
      ensures threshold[..] == BlendAll(erodyWt[..], tillThresh, rockThresh)
      ensures forall i :: 0 <= i < z.Length ==>
                Between(erody[i], rockErody, tillErody) && Between(threshold[i], rockThresh, tillThresh)
    {
      WeightsStayInUnitInterval(erodyWt[..], z[..], rockTillContact[..], dataNodes, exp, contactWidth);
      SetWeights(erodyWt, z[..], rockTillContact[..], dataNodes, exp, contactWidth);
      if optVarPrecip {
        var factor := adjustmentFactor(modelTime);
        tillErody := kTillSp * factor;
        rockErody := kRockSp * factor;
      }
      Overwrite(erody, BlendAll(erodyWt[..], tillErody, rockErody));
      Overwrite(threshold, BlendAll(erodyWt[..], tillThresh, rockThresh));
      BlendAllBetween(erodyWt[..], tillErody, rockErody);
      BlendAllBetween(erodyWt[..], tillThresh, rockThresh);
    }

    /** `run_one_step(dt)`: route flow, pick the flooded nodes, update erodibility and
        threshold, erode off the flooded nodes with the eroder's arrays, diffuse, advance
        the clock, then lower the outlet. `route` yields the depression finder's flood
        status; `erode` is the smoothed-threshold eroder given the surface, the flooded
        nodes, the contents of its `K_sp` and `threshold_sp` arrays and dt; `diffuse` is
        the linear diffuser; `lowerOutlet` is the base class's `update_outlet`, given the
        surface, the new model time and dt. */
    method RunOneStep(dt: real,
                      route: seq<real> -> seq<int>,
                      erode: (seq<real>, seq<nat>, seq<real>, seq<real>, real) -> seq<real>,
                      diffuse: (seq<real>, real) -> seq<real>,
                      lowerOutlet: (seq<real>, real, real) -> seq<real>)
      requires Valid()
      requires forall s, f, k, h, t :: |erode(s, f, k, h, t)| == |s|
      requires forall s, t :: |diffuse(s, t)| == |s|
      requires forall s, m, t :: |lowerOutlet(s, m, t)| == |s|
      modifies this`rockErody, this`tillErody, this`modelTime
      modifies z, erodyWt, erody, threshold
      ensures Valid()
      ensures modelTime == old(modelTime) + dt
      ensures erodyWt[..] == WeightsAt(old(erodyWt[..]), old(z[..]), rockTillContact[..], dataNodes, exp, contactWidth)
      ensures optVarPrecip ==>
                tillErody == kTillSp * adjustmentFactor(old(modelTime))
                && rockErody == kRockSp * adjustmentFactor(old(modelTime))
      ensures !optVarPrecip ==> tillErody == old(tillErody) && rockErody == old(rockErody)
      ensures erody[..] == BlendAll(erodyWt[..], tillErody, rockErody)
      ensures threshold[..] == BlendAll(erodyWt[..], tillThresh, rockThresh)
      ensures var eroded := erode(old(z[..]), FloodedNodes(route(old(z[..]))), erody[..], threshold[..], dt);
              z[..] == lowerOutlet(diffuse(eroded, dt), modelTime, dt)
    {
      ErodeStep(dt, route, erode);
      DiffuseAndLower(dt, diffuse, lowerOutlet);
    }

    /** The water-erosion half of `run_one_step`: route flow, pick the flooded nodes,
        update erodibility and threshold, and erode off the flooded nodes. */
    method ErodeStep(dt: real,
                     route: seq<real> -> seq<int>,
                     erode: (seq<real>, seq<nat>, seq<real>, seq<real>, real) -> seq<real>)
      requires Valid()
      requires forall s, f, k, h, t :: |erode(s, f, k, h, t)| == |s|
      modifies this`rockErody, this`tillErody, z, erodyWt, erody, threshold
      ensures Valid()
      ensures erodyWt[..] == WeightsAt(old(erodyWt[..]), old(z[..]), rockTillContact[..], dataNodes, exp, contactWidth)
      ensures optVarPrecip ==>
                tillErody == kTillSp * adjustmentFactor(modelTime)
                && rockErody == kRockSp * adjustmentFactor(modelTime)
      ensures !optVarPrecip ==> tillErody == old(tillErody) && rockErody == old(rockErody)
      ensures erody[..] == BlendAll(erodyWt[..], tillErody, rockErody)
      ensures threshold[..] == BlendAll(erodyWt[..], tillThresh, rockThresh)
      ensures z[..] == erode(old(z[..]), FloodedNodes(route(old(z[..]))), erody[..], threshold[..], dt)
    {
      ghost var z0 := z[..];
      var flooded := FloodedNodes(route(z[..]));
      UpdateErodibilityAndThresholdFields();
      assert z[..] == z0;
      var eroded := erode(z[..], flooded, erody[..], threshold[..], dt);
      Overwrite(z, eroded);
    }

    /** The rest of `run_one_step`: linear diffusion, the clock, and the outlet. */
    method DiffuseAndLower(dt: real,
                           diffuse: (seq<real>, real) -> seq<real>,
                           lowerOutlet: (seq<real>, real, real) -> seq<real>)
      requires Valid()
      requires forall s, t :: |diffuse(s, t)| == |s|
      requires forall s, m, t :: |lowerOutlet(s, m, t)| == |s|
      modifies this`modelTime, z
      ensures Valid()
      ensures modelTime == old(modelTime) + dt
      ensures z[..] == lowerOutlet(diffuse(old(z[..]), dt), modelTime, dt)
    {
      var diffused := diffuse(z[..], dt);
      Overwrite(z, diffused);
      modelTime := modelTime + dt;
      var lowered := lowerOutlet(z[..], modelTime, dt);
      Overwrite(z, lowered);
    }
  }
}
