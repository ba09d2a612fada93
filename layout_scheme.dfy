// LayoutScheme (src/layout_scheme.cpp): the names of the layouts and the
// cycle through them.
module LayoutSchemes {
  import opened Wrappers

  datatype LayoutScheme = Horizontal | Vertical | Stacking | Tabbing | NoScheme

  /** `to_string`: the i3 name of each layout; any other value throws, which is `None` here. */
  function ToString(s: LayoutScheme): (r: Option<string>)
    ensures r.None? <==> s.NoScheme?
  {
    match s
    case Horizontal => Some("splith")
    case Vertical => Some("splitv")
    case Stacking => Some("stacked")
    case Tabbing => Some("tabbed")
    case NoScheme => None
  }

  /** The reverse lookup of an i3 layout name. */
  function FromName(name: string): Option<LayoutScheme>
  {
    if name == "splith" then Some(Horizontal)
    else if name == "splitv" then Some(Vertical)
    else if name == "stacked" then Some(Stacking)
    else if name == "tabbed" then Some(Tabbing)
    else None
  }

  /** Every layout's name leads back to that layout, so no two layouts share a name. */
  lemma NamesRoundTrip(s: LayoutScheme)
    requires !s.NoScheme?
    ensures ToString(s).Some? && FromName(ToString(s).value) == Some(s)
  {
  }

  /** And every name the lookup knows is the name of the layout it gives. */
  lemma NameLookupSound(name: string)
    requires FromName(name).Some?
    ensures ToString(FromName(name).value) == Some(name)
  {
  }

  /**
   * `get_next_layout` on the enum's values: the value after `scheme`, or 0
   * when that would be `none`, whose value is `none` (the enum's order is
   * taken as given).
   */
  function NextLayout(scheme: nat, none: nat): (r: nat)
    requires scheme < none
    ensures r < none
    ensures r == 0 <==> scheme == none - 1
  {
    if scheme + 1 == none then 0 else scheme + 1
  }

  /** `get_next_layout` applied `k` times. */
  function Cycled(scheme: nat, none: nat, k: nat): (r: nat)
    requires scheme < none
    ensures r < none
  {
    if k == 0 then scheme else NextLayout(Cycled(scheme, none, k - 1), none)
  }

  /** Up to a full turn, `k` steps from `scheme` land `k` further on, wrapping past `none` once. */
  lemma {:induction false} CycledWraps(scheme: nat, none: nat, k: nat)
    requires scheme < none && k <= none
    ensures Cycled(scheme, none, k) == if scheme + k < none then scheme + k else scheme + k - none
  {
    if k > 0 {
      CycledWraps(scheme, none, k - 1);
    }
  }

  /** The cycle visits every layout before `none` and returns to the start after exactly that many steps. */
  lemma CyclePeriod(scheme: nat, none: nat, k: nat)
    requires scheme < none
    ensures Cycled(scheme, none, none) == scheme
    ensures 0 < k < none ==> Cycled(scheme, none, k) != scheme
  {
    CycledWraps(scheme, none, none);
    if 0 < k < none {
      CycledWraps(scheme, none, k);
    }
  }
}
