/** The Dynamic World class catalog: integer label code to class name. */
module Classes {
  import opened Wrappers

  /** The label code of the "Built Area" class, the one counted as urban. */
  const BuiltArea: int := 6

  const Catalog: map<int, string> := map[
    0 := "Water",
    1 := "Trees",
    2 := "Grass",
    3 := "Flooded Veg",
    4 := "Crops",
    5 := "Shrub/Scrub",
    6 := "Built Area",
    7 := "Bare Ground",
    8 := "Snow/Ice"
  ]

  /** A code the catalog knows. */
  predicate IsLabel(code: int) {
    code in Catalog
  }

  /** The name of a label code; None for a code outside the catalog. */
  function ClassName(code: int): (r: Option<string>)
    ensures r.Some? <==> 0 <= code <= 8
    ensures code == BuiltArea ==> r == Some("Built Area")
  {
    if code in Catalog then Some(Catalog[code]) else None
  }
}
