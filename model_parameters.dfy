/** Lookup of the numeric entries of a model's parameter dictionary. */
module ModelParameters {
  import opened Outcomes

  /** The parameter names the two erosion models read. */
  const ContactZoneWidth: string := "contact_zone__width"
  const MSp: string := "m_sp"
  const NSp: string := "n_sp"
  const InitialSoilThickness: string := "initial_soil_thickness"
  const SoilTransportDecayDepth: string := "soil_transport_decay_depth"
  const MaxSoilProductionRate: string := "max_soil_production_rate"
  const SoilProductionDecayDepth: string := "soil_production_decay_depth"

  /** The first key of `keys`, in lookup order, that `params` lacks: the key whose
      `params[key]` raises the KeyError, or None when every lookup succeeds. */
  function FirstMissing(keys: seq<string>, params: map<string, real>): (r: Option<string>)
    ensures r.None? <==> forall k :: k in keys ==> k in params
    ensures r.Some? ==> exists i :: 0 <= i < |keys| && keys[i] == r.value && r.value !in params
                          && forall j :: 0 <= j < i ==> keys[j] in params
  {
    if |keys| == 0 then None
    else if keys[0] !in params then Some(keys[0])
    else
      var rest := FirstMissing(keys[1..], params);
      assert forall k :: k in keys ==> k == keys[0] || k in keys[1..];
      if rest.Some? then
        var i :| 0 <= i < |keys[1..]| && keys[1..][i] == rest.value && rest.value !in params
                 && forall j :: 0 <= j < i ==> keys[1..][j] in params;
        assert keys[i + 1] == rest.value;
        rest
      else rest
  }
}
