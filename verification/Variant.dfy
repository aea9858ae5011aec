// The choice of an HLS variant (examples/hls2rtp.c).
module Variant {
  import opened Machine

  // A variant without a bandwidth attribute counts as bandwidth 0.
  datatype Variant = Variant(id: u64, bandwidth: Option<u64>)

  function Bandwidth(v: Variant): u64 {
    if v.bandwidth == None then 0 else v.bandwidth.value
  }

  predicate Fits(v: Variant, max: u64) {
    0 < Bandwidth(v) <= max
  }

  // The choice: the first variant with the requested id; without one, the first
  // of the variants of greatest bandwidth within the limit; without those, the
  // first without bandwidth; without any of these, none.
  ghost predicate IsChoice(vs: seq<Variant>, id: u64, max: u64, r: Option<nat>) {
    if exists j: nat :: j < |vs| && vs[j].id == id then
      r != None && r.value < |vs| && vs[r.value].id == id && forall j: nat :: j < r.value ==> vs[j].id != id
    else if exists j: nat :: j < |vs| && Fits(vs[j], max) then
      && r != None && r.value < |vs| && Fits(vs[r.value], max)
      && (forall j: nat :: j < |vs| && Fits(vs[j], max) ==> Bandwidth(vs[j]) <= Bandwidth(vs[r.value]))
      && (forall j: nat :: j < r.value && Fits(vs[j], max) ==> Bandwidth(vs[j]) < Bandwidth(vs[r.value]))
    else if exists j: nat :: j < |vs| && Bandwidth(vs[j]) == 0 then
      && r != None && r.value < |vs| && Bandwidth(vs[r.value]) == 0
      && forall j: nat :: j < r.value ==> Bandwidth(vs[j]) != 0
    else
      r == None
  }

  // The same in numbers, a missing bandwidth being 0.
  lemma ChoiceInNumbers(vs: seq<Variant>, id: u64, max: u64, r: Option<nat>, i: nat)
    requires IsChoice(vs, id, max, r) && i < |vs|
    ensures r != None ==> r.value < |vs|
    ensures vs[i].id == id ==> r != None && r.value <= i && vs[r.value].id == id
    ensures vs[i].bandwidth != None && 0 < vs[i].bandwidth.value <= max ==> r != None
    ensures r != None && vs[r.value].id != id ==>
      var c, b := vs[r.value].bandwidth, vs[i].bandwidth;
      && vs[i].id != id
      && (b != None && 0 < b.value <= max ==>
            c != None && b.value <= c.value <= max && (i < r.value ==> b.value < c.value))
      && (c == None || c.value == 0 || c.value <= max)
      && ((c == None || c.value == 0) && (b == None || b.value == 0) ==> r.value <= i)
    ensures vs[i].bandwidth == None || vs[i].bandwidth.value == 0 ==> r != None
  {
  }

  // There is only one such choice.
  lemma ChoiceIsUnique(vs: seq<Variant>, id: u64, max: u64, r: Option<nat>, s: Option<nat>)
    requires IsChoice(vs, id, max, r) && IsChoice(vs, id, max, s)
    ensures r == s
  {
  }

  // The loop of select_variant.
  method SelectVariant(vs: seq<Variant>, variantId: u64, bandwidthMax: u64) returns (chosen: Option<nat>)
    ensures IsChoice(vs, variantId, bandwidthMax, chosen)
  {
    chosen := None;
    var bandwidthVariant: u64 := 0;
    for i := 0 to |vs|
      invariant forall j: nat :: j < i ==> vs[j].id != variantId
      invariant chosen == None ==> bandwidthVariant == 0
      invariant chosen == None ==> forall j: nat :: j < i ==> !Fits(vs[j], bandwidthMax) && Bandwidth(vs[j]) != 0
      invariant chosen != None ==> chosen.value < i && Bandwidth(vs[chosen.value]) == bandwidthVariant <= bandwidthMax
      invariant forall j: nat :: j < i && Fits(vs[j], bandwidthMax) ==> Bandwidth(vs[j]) <= bandwidthVariant
      invariant chosen != None ==>
        forall j: nat :: j < chosen.value ==> Fits(vs[j], bandwidthMax) ==> Bandwidth(vs[j]) < bandwidthVariant
      invariant chosen != None && bandwidthVariant == 0 ==> forall j: nat :: j < chosen.value ==> Bandwidth(vs[j]) != 0
    {
      var bandwidth := Bandwidth(vs[i]);
      if variantId == vs[i].id {
        chosen := Some(i);
        return;
      }
      if (bandwidth == 0 && chosen == None) || (bandwidth <= bandwidthMax && bandwidth > bandwidthVariant) {
        chosen := Some(i);
        bandwidthVariant := bandwidth;
      }
    }
  }
}
