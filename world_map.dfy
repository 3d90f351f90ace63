/**
 * The per-region logic of the world map (src/components/map/WorldMap.tsx):
 * which regions are drawn as visited, which react to clicks, what the
 * tooltip says, how the tooltip state changes under the mouse handlers, and
 * the word printed after the visited count.
 */
module WorldMap {
  import opened Options
  import opened Registry
  import CountryCodes

  const ColorDefault: string := "#e5e7eb"
  const ColorVisited: string := "#0d9488"
  const ColorVisitedHover: string := "#0f766e"
  const ColorHover: string := "#d1d5db"

  /** A geography feature of the map dataset: its numeric `id` and its optional `properties.name`. */
  datatype Geography = Geography(id: string, name: Option<string>)

  /** True when the numeric id has an entry in the reconciliation table. */
  predicate IsMapped(id: string) {
    id in CountryCodes.KeysOf(CountryCodes.Table)
  }

  /**
   * `isVisited`: the region's id is in the table and the code it maps to is
   * in the visited set; an unmapped id is never visited.
   */
  function IsVisited(id: string, visited: set<string>): (b: bool)
    ensures b <==> exists a :: (id, a) in CountryCodes.Table && a in visited
    ensures !IsMapped(id) ==> !b
  {
    match CountryCodes.Alpha2Of(id)
    case Some(a) =>
      CountryCodes.TableDistinctKeys();
      assert forall a' :: (id, a') in CountryCodes.Table ==> a' == a by {
        forall a' | (id, a') in CountryCodes.Table ensures a' == a {
          CountryCodes.ForwardOf((id, a'));
          CountryCodes.ForwardOf((id, a));
        }
      }
      a in visited
    case None => false
  }

  datatype Cursor = Pointer | DefaultCursor

  /** How a region is painted: fill, fill under the pointer, and the cursor. */
  datatype Style = Style(fill: string, hoverFill: string, cursor: Cursor)

  function RegionStyle(id: string, visited: set<string>): (st: Style)
    ensures st.fill == ColorVisited <==> IsVisited(id, visited)
    ensures st.hoverFill == ColorVisitedHover <==> IsVisited(id, visited)
    ensures !IsVisited(id, visited) ==> st.fill == ColorDefault && st.hoverFill == ColorHover
    ensures st.cursor == Pointer <==> IsMapped(id)
  {
    var v := IsVisited(id, visited);
    Style(if v then ColorVisited else ColorDefault,
          if v then ColorVisitedHover else ColorHover,
          if CountryCodes.Alpha2Of(id).Some? then Pointer else DefaultCursor)
  }

  /**
   * The click handler: the callback runs only for a mapped id when one is
   * given, and receives the id's code and the region's visited flag.
   */
  function Click(id: string, visited: set<string>, hasCallback: bool): (call: Option<(string, bool)>)
    ensures call.Some? <==> hasCallback && IsMapped(id)
    ensures call.Some? ==> (id, call.value.0) in CountryCodes.Table
                           && call.value.1 == IsVisited(id, visited)
                           && (call.value.1 <==> call.value.0 in visited)
  {
    match CountryCodes.Alpha2Of(id)
    case Some(a) => if hasCallback then Some((a, IsVisited(id, visited))) else None
    case None => None
  }

  /**
   * The tooltip name: the registry name of the mapped code, else the
   * feature's own name, else "Unknown". An empty feature name is kept, since
   * `??` only skips a missing one.
   */
  function TooltipName(geo: Geography, registry: map<string, Country>): (name: string)
    ensures (exists a :: (geo.id, a) in CountryCodes.Table && a in registry && name == registry[a].name)
            || (name == geo.name.GetOr("Unknown")
                && forall a :: (geo.id, a) in CountryCodes.Table ==> a !in registry)
  {
    match CountryCodes.Alpha2Of(geo.id)
    case Some(a) =>
      if a in registry then registry[a].name
      else
        assert forall a' :: (geo.id, a') in CountryCodes.Table ==> a' == a by {
          forall a' | (geo.id, a') in CountryCodes.Table ensures a' == a {
            CountryCodes.ForwardOf((geo.id, a'));
            CountryCodes.ForwardOf((geo.id, a));
          }
        }
        geo.name.GetOr("Unknown")
    case None => geo.name.GetOr("Unknown")
  }

  /** The tooltip: a name and the pointer's client coordinates. */
  datatype Tooltip = Tooltip(name: string, x: int, y: int)

  /** `setTooltip((prev) => prev ? { ...prev, x, y } : null)`. */
  function Moved(prev: Option<Tooltip>, x: int, y: int): (next: Option<Tooltip>)
    ensures next.Some? <==> prev.Some?
    ensures next.Some? ==> next.value.name == prev.value.name && next.value.x == x && next.value.y == y
  {
    match prev
    case Some(t) => Some(t.(x := x, y := y))
    case None => None
  }

  /** A move after the pointer left shows nothing: moving never creates a tooltip. */
  lemma MoveAfterLeaveShowsNothing(x: int, y: int)
    ensures Moved(None, x, y) == None
  {
  }

  /** Moves keep the name of the region last entered, wherever the pointer goes. */
  lemma {:induction false} MovesKeepName(t: Tooltip, xs: seq<int>, ys: seq<int>)
    requires |xs| == |ys|
    ensures MoveAll(Some(t), xs, ys).Some?
    ensures MoveAll(Some(t), xs, ys).value.name == t.name
    decreases |xs|
  {
    if xs != [] {
      MovesKeepName(Moved(Some(t), xs[0], ys[0]).value, xs[1..], ys[1..]);
    }
  }

  /** A run of moves, first to last. */
  function MoveAll(prev: Option<Tooltip>, xs: seq<int>, ys: seq<int>): Option<Tooltip>
    requires |xs| == |ys|
    decreases |xs|
  {
    if xs == [] then prev else MoveAll(Moved(prev, xs[0], ys[0]), xs[1..], ys[1..])
  }

  /** The React state of the map: the tooltip and the selected region preset. */
  class MapView {
    var tooltip: Option<Tooltip>
    var selectedRegion: string

    constructor ()
      ensures tooltip == None && selectedRegion == "World"
    {
      tooltip := None;
      selectedRegion := "World";
    }

    /** `handleMouseEnter`: shows the region's name at the pointer. */
    method MouseEnter(geo: Geography, x: int, y: int, registry: map<string, Country>)
      modifies this
      ensures tooltip == Some(Tooltip(TooltipName(geo, registry), x, y))
      ensures selectedRegion == old(selectedRegion)
    {
      tooltip := Some(Tooltip(TooltipName(geo, registry), x, y));
    }

    /** `handleMouseMove`: follows the pointer only while a tooltip is shown. */
    method MouseMove(x: int, y: int)
      modifies this
      ensures tooltip == Moved(old(tooltip), x, y)
      ensures selectedRegion == old(selectedRegion)
    {
      if tooltip.Some? {
        tooltip := Some(tooltip.value.(x := x, y := y));
      }
    }

    /** `handleMouseLeave`: hides the tooltip. */
    method MouseLeave()
      modifies this
      ensures tooltip == None
      ensures selectedRegion == old(selectedRegion)
    {
      tooltip := None;
    }

    /** A region button: selects its viewport preset and leaves the tooltip alone. */
    method SelectRegion(region: string)
      modifies this
      ensures selectedRegion == region
      ensures tooltip == old(tooltip)
    {
      selectedRegion := region;
    }
  }

  /**
   * The word after the count: "страна" for 1, "страны" for 2 to 4, and
   * "стран" for every other count, including 0, 11 and 21.
   */
  function CountWord(count: nat): (word: string)
    ensures count == 1 ==> word == "страна"
    ensures 2 <= count <= 4 ==> word == "страны"
    ensures (count == 0 || count >= 5) ==> word == "стран"
  {
    if count == 1 then "страна" else if 2 <= count <= 4 then "страны" else "стран"
  }

  /** The stats line counts the visited set: its size and the matching word. */
  datatype CountLabel = CountLabel(count: nat, word: string)

  function VisitedCountLabel(visited: set<string>): (shown: CountLabel)
    ensures shown.count == |visited|
    ensures shown.word == CountWord(|visited|)
  {
    CountLabel(|visited|, CountWord(|visited|))
  }
}
