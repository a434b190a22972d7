/**
 * color.c: a map is an array of `n` lists of strings, one per country
 * (colour, name, neighbour names).  A ghost sequence `v` of
 * `MapSpec.Country` values is the map each method works on; `Readable`
 * ties it to the lists.  Each scan walks the lists the way the C code does
 * and is proved to compute the matching `MapSpec` function; each state
 * change is stated as the new sequence of countries the lists hold.
 */
module Color {
  import opened Wrappers
  import opened Lists
  import MapSpec

  /** The lists held by the first `n` slots of the array. */
  ghost function Handles(lists: array<List<string>>, n: nat): set<List<string>>
    reads lists
  {
    set i | 0 <= i < n && i < lists.Length :: lists[i]
  }

  /** The first `n` slots of the array. */
  ghost function Slots(lists: array<List<string>>, n: nat): seq<List<string>>
    reads lists
    requires n <= lists.Length
  {
    lists[..n]
  }

  /** Every object owned by the lists in the first `n` slots (each list owns itself). */
  ghost function Footprint(lists: array<List<string>>, n: nat): set<object>
    reads lists, Handles(lists, n)`Repr
  {
    set i, o | 0 <= i < n && i < lists.Length && o in lists[i].Repr :: o
  }

  /**
   * The lists in the first `k` slots are valid, hold at least a colour and a
   * name each, and hold the first `k` countries of `v`.
   */
  ghost predicate HoldsUpTo(lists: array<List<string>>, n: nat, v: seq<MapSpec.Country>, k: nat)
    reads lists, set i | 0 <= i < n && i < lists.Length :: lists[i]
    reads set i, o | 0 <= i < n && i < lists.Length && o in lists[i].Repr :: o
    requires k <= n <= lists.Length && k <= |v|
    decreases k
  {
    k == 0 ||
    (&& HoldsUpTo(lists, n, v, k - 1)
     && lists[k - 1].Valid()
     && |lists[k - 1].Contents| >= 2
     && v[k - 1] == MapSpec.CountryOf(lists[k - 1].Contents))
  }

  lemma {:induction false} HoldsAt(lists: array<List<string>>, n: nat, v: seq<MapSpec.Country>, k: nat, c: int)
    requires k <= n <= lists.Length && k <= |v| && HoldsUpTo(lists, n, v, k) && 0 <= c < k
    ensures lists[c].Valid() && |lists[c].Contents| >= 2 && v[c] == MapSpec.CountryOf(lists[c].Contents)
    decreases k
  {
    if c < k - 1 {
      HoldsAt(lists, n, v, k - 1, c);
    }
  }

  /**
   * The lists in the first `k` slots own pairwise disjoint sets of objects,
   * none of which is the array itself.
   */
  ghost predicate SeparateUpTo(lists: array<List<string>>, n: nat, k: nat)
    reads lists, (set i | 0 <= i < n && i < lists.Length :: lists[i])`Repr
    requires k <= n <= lists.Length
    decreases k
  {
    k == 0 ||
    (&& SeparateUpTo(lists, n, k - 1)
     && lists !in lists[k - 1].Repr
     && forall j :: 0 <= j < k - 1 ==> lists[j].Repr !! lists[k - 1].Repr)
  }

  lemma {:induction false} SeparateAt(lists: array<List<string>>, n: nat, k: nat, a: int, b: int)
    requires k <= n <= lists.Length && SeparateUpTo(lists, n, k)
    requires 0 <= a < k && 0 <= b < k && a != b
    ensures lists[a].Repr !! lists[b].Repr
    decreases k
  {
    if a < k - 1 && b < k - 1 {
      SeparateAt(lists, n, k - 1, a, b);
    }
  }

  /** `HoldsUpTo` unrolled: each of the first `k` lists is valid and holds its country. */
  lemma {:induction false} HoldsAll(lists: array<List<string>>, n: nat, v: seq<MapSpec.Country>, k: nat)
    requires k <= n <= lists.Length && k <= |v|
    ensures HoldsUpTo(lists, n, v, k) <==>
      forall a :: 0 <= a < k ==>
        lists[a].Valid() && |lists[a].Contents| >= 2 && v[a] == MapSpec.CountryOf(lists[a].Contents)
    decreases k
  {
    if k > 0 {
      HoldsAll(lists, n, v, k - 1);
    }
  }

  /** `SeparateUpTo` unrolled: any two of the first `k` lists are disjoint, and the array is no list's. */
  lemma {:induction false} SeparateAll(lists: array<List<string>>, n: nat, k: nat)
    requires k <= n <= lists.Length
    ensures SeparateUpTo(lists, n, k) <==>
      && (forall a :: 0 <= a < k ==> lists !in lists[a].Repr)
      && (forall a, b :: 0 <= a < k && 0 <= b < k && a != b ==> lists[a].Repr !! lists[b].Repr)
    decreases k
  {
    if k > 0 {
      SeparateAll(lists, n, k - 1);
    }
  }

  /** The lists in the first `n` slots are valid and hold the countries `v`, one list per country, in order. */
  ghost predicate Readable(lists: array<List<string>>, n: nat, v: seq<MapSpec.Country>)
    reads lists, Handles(lists, n), Footprint(lists, n)
  {
    n <= lists.Length && |v| == n && HoldsUpTo(lists, n, v, n)
  }

  /** What the painting operations need besides: lists that share no object. */
  ghost predicate Separate(lists: array<List<string>>, n: nat)
    reads lists, Handles(lists, n)`Repr
  {
    n <= lists.Length && SeparateUpTo(lists, n, n)
  }

  /** get_name: the word at position 1 of a country's list. */
  method GetName(lists: array<List<string>>, n: nat, ghost v: seq<MapSpec.Country>, c: int) returns (r: string)
    requires Readable(lists, n, v) && 0 <= c < n
    ensures r == v[c].name
  {
    HoldsAt(lists, n, v, n, c);
    var s := lists[c].Get(1);
    r := s.value;
  }

  /** get_color: the word at position 0, or None while it is "nocolor". */
  method GetColor(lists: array<List<string>>, n: nat, ghost v: seq<MapSpec.Country>, c: int) returns (r: Option<string>)
    requires Readable(lists, n, v) && 0 <= c < n
    ensures r == MapSpec.Colour(v[c])
    ensures r == None <==> !MapSpec.Colored(v[c])
  {
    HoldsAt(lists, n, v, n, c);
    var s := lists[c].Get(0);
    r := if s.value == MapSpec.NoColor then None else s;
  }

  /** uncolored */
  method Uncolored(lists: array<List<string>>, n: nat, ghost v: seq<MapSpec.Country>, c: int) returns (r: bool)
    requires Readable(lists, n, v) && 0 <= c < n
    ensures r <==> !MapSpec.Colored(v[c])
  {
    var clr := GetColor(lists, n, v, c);
    r := clr == None;
  }

  /** neighbour_count: the list's size less the colour and the name. */
  function NeighbourCount(lists: array<List<string>>, n: nat, ghost v: seq<MapSpec.Country>, c: int): (r: int)
    reads lists, Handles(lists, n), Footprint(lists, n)
    requires Readable(lists, n, v) && 0 <= c < n
    ensures r == |v[c].neighbours|
  {
    HoldsAt(lists, n, v, n, c);
    lists[c].Size() - 2
  }

  /** has_neighbours */
  function HasNeighbours(lists: array<List<string>>, n: nat, ghost v: seq<MapSpec.Country>, c: int): (r: bool)
    reads lists, Handles(lists, n), Footprint(lists, n)
    requires Readable(lists, n, v) && 0 <= c < n
    ensures r <==> v[c].neighbours != []
  {
    NeighbourCount(lists, n, v, c) > 0
  }

  /** find_country: a linear scan of the names. */
  method FindCountry(lists: array<List<string>>, n: nat, ghost v: seq<MapSpec.Country>, name: string) returns (r: int)
    requires Readable(lists, n, v)
    ensures r == MapSpec.FindCountry(v, name)
  {
    var i := 0;
    while i < n
      invariant 0 <= i <= n
      invariant forall j :: 0 <= j < i ==> v[j].name != name
    {
      var s := GetName(lists, n, v, i);
      if s == name {
        MapSpec.FindCountryLowest(v, name);
        return i;
      }
      i := i + 1;
    }
    MapSpec.FindCountryLowest(v, name);
    return -1;
  }

  /** get_color(map, find_country(map, name)) for a name that resolves. */
  method ColorOfNamed(lists: array<List<string>>, n: nat, ghost v: seq<MapSpec.Country>, name: string)
    returns (r: Option<string>)
    requires Readable(lists, n, v) && MapSpec.FindCountry(v, name) >= 0
    ensures r == MapSpec.ColourOf(v, name)
  {
    var j := FindCountry(lists, n, v, name);
    r := GetColor(lists, n, v, j);
  }

  /**
   * The loop of can_color: walks the neighbour names of country `c` from
   * position 2, looks each one up and stops at the first one coloured `color`.
   */
  method NoNeighbourHas(lists: array<List<string>>, n: nat, ghost v: seq<MapSpec.Country>, c: int, color: string)
    returns (r: bool)
    requires Readable(lists, n, v) && 0 <= c < n && MapSpec.Resolves(v, c)
    ensures r <==> forall k :: 0 <= k < |v[c].neighbours| ==> MapSpec.ColourOf(v, v[c].neighbours[k]) != Some(color)
  {
    HoldsAt(lists, n, v, n, c);
    var lst := lists[c];
    ghost var nbs := v[c].neighbours;
    var curr := lst.GetNode(2);
    ghost var k := 0;
    while curr != lst.End()
      invariant 0 <= k <= |nbs|
      invariant curr == if k < |nbs| then lst.Nodes[k + 3] else null
      invariant forall q :: 0 <= q < k ==> MapSpec.ColourOf(v, nbs[q]) != Some(color)
      decreases |nbs| - k
    {
      var clr, next := NeighbourColour(lists, n, v, c, curr, k);
      if clr != None && clr.value == color {
        return false;
      }
      curr := next;
      k := k + 1;
    }
    return true;
  }

  /**
   * The body of can_color's loop at neighbour `k` of country `c`: the colour
   * of the country the node `curr` names, and the node after it.
   */
  method NeighbourColour(lists: array<List<string>>, n: nat, ghost v: seq<MapSpec.Country>, c: int, curr: Node?<string>, ghost k: int)
    returns (r: Option<string>, next: Node?<string>)
    requires Readable(lists, n, v) && 0 <= c < n && MapSpec.Resolves(v, c)
    requires lists[c].Valid() && |lists[c].Contents| >= 2 && v[c] == MapSpec.CountryOf(lists[c].Contents)
    requires 0 <= k < |v[c].neighbours| && curr == lists[c].Nodes[k + 3]
    ensures r == MapSpec.ColourOf(v, v[c].neighbours[k])
    ensures next == if k + 1 < |v[c].neighbours| then lists[c].Nodes[k + 4] else null
  {
    var lst := lists[c];
    assert lst.Nodes[1..][k + 2] == curr;
    var name := lst.Access(curr).value;
    r := ColorOfNamed(lists, n, v, name);
    next := lst.Next(curr);
  }

  /**
   * can_color: false for a country already coloured unless `checking`, true
   * for a country without neighbours, else true when no neighbour has `color`.
   */
  method CanColor(lists: array<List<string>>, n: nat, ghost v: seq<MapSpec.Country>, c: int, color: string, checking: bool)
    returns (r: bool)
    requires Readable(lists, n, v) && 0 <= c < n
    requires (!checking && MapSpec.Colored(v[c])) || MapSpec.Resolves(v, c)
    ensures r == MapSpec.CanColor(v, c, color, checking)
  {
    var u := Uncolored(lists, n, v, c);
    if !checking && !u {
      return false;
    }
    if !HasNeighbours(lists, n, v, c) {
      return true;
    }
    r := NoNeighbourHas(lists, n, v, c, color);
  }

  /**
   * Rule B for one neighbour name (the inner loop of is_map_valid): the
   * country called `name` exists and lists `back` among its neighbours.
   */
  method ListsBack(lists: array<List<string>>, n: nat, ghost v: seq<MapSpec.Country>, name: string, back: string)
    returns (r: bool)
    requires Readable(lists, n, v)
    ensures r <==> MapSpec.FindCountry(v, name) >= 0 && back in v[MapSpec.FindCountry(v, name)].neighbours
  {
    var j := FindCountry(lists, n, v, name);
    if j == -1 {
      return false;
    }
    HoldsAt(lists, n, v, n, j);
    var lst := lists[j];
    ghost var nbs := v[j].neighbours;
    var temp := lst.GetNode(1);
    ghost var k := 0;
    while true
      invariant 0 <= k <= |nbs|
      invariant temp == lst.Nodes[k + 2]
      invariant forall q :: 0 <= q < k ==> nbs[q] != back
      decreases |nbs| - k
    {
      assert lst.Nodes[1..][k + 1] == temp;
      temp := lst.Next(temp);
      if temp == lst.End() {
        return false;
      }
      assert lst.Nodes[1..][k + 2] == temp;
      if lst.Access(temp).value == back {
        return true;
      }
      k := k + 1;
    }
  }

  /** The middle loop of is_map_valid: rules A and B hold for every neighbour of country `c`. */
  method NeighboursListBack(lists: array<List<string>>, n: nat, ghost v: seq<MapSpec.Country>, c: int, name: string)
    returns (r: bool)
    requires Readable(lists, n, v) && 0 <= c < n && name == v[c].name
    ensures r <==> forall k :: 0 <= k < |v[c].neighbours| ==>
      MapSpec.FindCountry(v, v[c].neighbours[k]) >= 0 && name in v[MapSpec.FindCountry(v, v[c].neighbours[k])].neighbours
  {
    HoldsAt(lists, n, v, n, c);
    var lst := lists[c];
    ghost var nbs := v[c].neighbours;
    var curr := lst.GetNode(2);
    ghost var k := 0;
    while curr != lst.End()
      invariant 0 <= k <= |nbs|
      invariant curr == if k < |nbs| then lst.Nodes[k + 3] else null
      invariant forall q :: 0 <= q < k ==>
        MapSpec.FindCountry(v, nbs[q]) >= 0 && name in v[MapSpec.FindCountry(v, nbs[q])].neighbours
      decreases |nbs| - k
    {
      assert lst.Nodes[1..][k + 2] == curr;
      var currName := lst.Access(curr).value;
      assert currName == nbs[k];
      var ok := ListsBack(lists, n, v, currName, name);
      if !ok {
        return false;
      }
      curr := lst.Next(curr);
      k := k + 1;
    }
    return true;
  }

  /**
   * is_map_valid: every neighbour name of every country names a country
   * (rule A) that lists the first one among its neighbours (rule B).
   */
  method IsMapValid(lists: array<List<string>>, n: nat, ghost v: seq<MapSpec.Country>) returns (r: bool)
    requires Readable(lists, n, v)
    ensures r == MapSpec.IsMapValid(v)
  {
    var country := 0;
    while country < n
      invariant 0 <= country <= n
      invariant forall i, k :: 0 <= i < country && 0 <= k < |v[i].neighbours| ==>
        MapSpec.FindCountry(v, v[i].neighbours[k]) >= 0 && v[i].name in v[MapSpec.FindCountry(v, v[i].neighbours[k])].neighbours
    {
      if HasNeighbours(lists, n, v, country) {
        var name := GetName(lists, n, v, country);
        var ok := NeighboursListBack(lists, n, v, country, name);
        if !ok {
          return false;
        }
      }
      country := country + 1;
    }
    return true;
  }

  /**
   * is_valid_coloring: every coloured country passes can_color with its own
   * colour, and no country uses clrs[nClrs] while nClrs < maxClrs - 1.
   */
  method IsValidColoring(lists: array<List<string>>, n: nat, ghost v: seq<MapSpec.Country>,
                         clrs: seq<string>, maxClrs: int, nClrs: int)
    returns (r: bool)
    requires Readable(lists, n, v)
    requires forall i :: 0 <= i < n && MapSpec.Colored(v[i]) ==> MapSpec.Resolves(v, i)
    requires nClrs < maxClrs - 1 ==> 0 <= nClrs < |clrs|
    ensures r == MapSpec.IsValidColoring(v, clrs, maxClrs, nClrs)
  {
    var i := 0;
    while i < n
      invariant 0 <= i <= n
      invariant forall q :: 0 <= q < i && MapSpec.Colored(v[q]) ==>
        MapSpec.CanColor(v, q, v[q].color, true) && !(nClrs < maxClrs - 1 && v[q].color == clrs[nClrs])
    {
      var clr := GetColor(lists, n, v, i);
      if clr != None {
        var can := CanColor(lists, n, v, i, clr.value, true);
        if !can {
          return false;
        }
        if nClrs < maxClrs - 1 && clr.value == clrs[nClrs] {
          return false;
        }
      }
      i := i + 1;
    }
    return true;
  }

  /**
   * paint_country: overwrites the colour slot of country `c` with `color`,
   * provided the colour is present, at most `maxWord` characters long and `c`
   * is a country of the map; otherwise nothing changes.
   */
  method PaintCountry(lists: array<List<string>>, n: nat, ghost v: seq<MapSpec.Country>,
                      c: int, color: Option<string>, maxWord: nat)
    requires Readable(lists, n, v) && Separate(lists, n)
    modifies Footprint(lists, n)
    ensures Readable(lists, n,
      if color != None && |color.value| <= maxWord && 0 <= c < n then MapSpec.Paint(v, c, color.value) else v)
    ensures Separate(lists, n) && Footprint(lists, n) == old(Footprint(lists, n))
  {
    if color != None && |color.value| <= maxWord && 0 <= c < n {
      HoldsAt(lists, n, v, n, c);
      var lst := lists[c];
      forall j | 0 <= j < n && j != c
        ensures lists[j].Repr !! lst.Repr && lists[j] in lists[j].Repr
        ensures lists[j].Valid() && |lists[j].Contents| >= 2 && v[j] == MapSpec.CountryOf(lists[j].Contents)
      {
        HoldsAt(lists, n, v, n, j);
        SeparateAt(lists, n, n, j, c);
      }
      var node := lst.Begin();
      lst.Replace(node, color);
      ghost var w := MapSpec.Paint(v, c, color.value);
      assert w[c] == MapSpec.CountryOf(lst.Contents);
      forall j | 0 <= j < n && j != c
        ensures lists[j].Valid() && |lists[j].Contents| >= 2 && w[j] == MapSpec.CountryOf(lists[j].Contents)
        ensures lists[j].Repr == old(lists[j].Repr)
      {
        assert unchanged(lists[j]) && unchanged(old(lists[j].Repr));
      }
      assert forall j :: 0 <= j < n ==> lists[j].Repr == old(lists[j].Repr);
      HoldsAll(lists, n, w, n);
    }
  }

  /** unpaint_country: paint_country with "nocolor". */
  method UnpaintCountry(lists: array<List<string>>, n: nat, ghost v: seq<MapSpec.Country>, c: int, maxWord: nat)
    requires Readable(lists, n, v) && Separate(lists, n)
    modifies Footprint(lists, n)
    ensures Readable(lists, n,
      if |MapSpec.NoColor| <= maxWord && 0 <= c < n then MapSpec.Paint(v, c, MapSpec.NoColor) else v)
    ensures Separate(lists, n) && Footprint(lists, n) == old(Footprint(lists, n))
  {
    PaintCountry(lists, n, v, c, Some(MapSpec.NoColor), maxWord);
  }

  /**
   * color_map: backtracking search.  Finds the first uncoloured country and
   * leaves the rest to `ColorCountry`; a map with no uncoloured country is
   * done.  On success every uncoloured country has a palette colour; on
   * failure the map is as it was.  On a map that passes is_map_valid and
   * whose names are distinct, success creates no conflict between bordering
   * countries, and failure means that no completion with the palette exists.
   */
  method ColorMap(lists: array<List<string>>, n: nat, ghost v: seq<MapSpec.Country>,
                  colors: seq<string>, nColors: int, maxWord: nat)
    returns (ok: bool, ghost w: seq<MapSpec.Country>)
    requires Readable(lists, n, v) && Separate(lists, n) && MapSpec.AllResolve(v)
    requires nColors <= |colors| && |MapSpec.NoColor| <= maxWord
    requires forall k :: 0 <= k < nColors ==> colors[k] != MapSpec.NoColor && |colors[k]| <= maxWord
    modifies Footprint(lists, n)
    ensures Readable(lists, n, w) && Separate(lists, n) && Footprint(lists, n) == old(Footprint(lists, n))
    ensures ok ==> MapSpec.Completes(v, w, MapSpec.Palette(colors, nColors))
    ensures ok && MapSpec.Sound(v) ==> MapSpec.NoNewConflicts(v, w)
    ensures !ok ==> w == v
    ensures !ok && MapSpec.Sound(v) ==> !MapSpec.Colourable(v, MapSpec.Palette(colors, nColors))
    decreases MapSpec.Uncoloured(v), 2
  {
    var country := 0;
    while country < n
      invariant 0 <= country <= n
      invariant forall q :: 0 <= q < country ==> MapSpec.Colored(v[q])
      invariant Readable(lists, n, v) && Separate(lists, n) && Footprint(lists, n) == old(Footprint(lists, n))
    {
      var u := Uncolored(lists, n, v, country);
      if u {
        ok, w := ColorCountry(lists, n, v, country, colors, nColors, maxWord);
        return;
      }
      country := country + 1;
    }
    MapSpec.AllColouredCompletes(v, MapSpec.Palette(colors, nColors));
    return true, v;
  }

  /**
   * The colour loop of color_map for the uncoloured country `country`: tries
   * colors[0 .. nColors - 1] in turn and succeeds with the first attempt that
   * succeeds; fails, with the map as it was, when none does.
   */
  method ColorCountry(lists: array<List<string>>, n: nat, ghost v: seq<MapSpec.Country>, country: int,
                      colors: seq<string>, nColors: int, maxWord: nat)
    returns (ok: bool, ghost w: seq<MapSpec.Country>)
    requires Readable(lists, n, v) && Separate(lists, n) && MapSpec.AllResolve(v)
    requires 0 <= country < n && !MapSpec.Colored(v[country])
    requires nColors <= |colors| && |MapSpec.NoColor| <= maxWord
    requires forall k :: 0 <= k < nColors ==> colors[k] != MapSpec.NoColor && |colors[k]| <= maxWord
    modifies Footprint(lists, n)
    ensures Readable(lists, n, w) && Separate(lists, n) && Footprint(lists, n) == old(Footprint(lists, n))
    ensures ok ==> MapSpec.Completes(v, w, MapSpec.Palette(colors, nColors))
    ensures ok && MapSpec.Sound(v) ==> MapSpec.NoNewConflicts(v, w)
    ensures !ok ==> w == v
    ensures !ok && MapSpec.Sound(v) ==> !MapSpec.Colourable(v, MapSpec.Palette(colors, nColors))
    decreases MapSpec.Uncoloured(v), 1
  {
    ghost var palette := MapSpec.Palette(colors, nColors);
    var clr := 0;
    while clr < nColors
      invariant 0 <= clr <= |palette|
      invariant Readable(lists, n, v) && Separate(lists, n) && Footprint(lists, n) == old(Footprint(lists, n))
      invariant forall q :: 0 <= q < clr && MapSpec.Sound(v) && MapSpec.CanColor(v, country, palette[q], false) ==>
        !MapSpec.Colourable(MapSpec.Paint(v, country, palette[q]), palette)
    {
      assert palette[clr] == colors[clr];
      ok, w := TryColour(lists, n, v, country, clr, colors, nColors, maxWord);
      if ok {
        return;
      }
      clr := clr + 1;
    }
    if MapSpec.Sound(v) {
      MapSpec.AllBranchesFail(v, country, palette);
    }
    return false, v;
  }

  /**
   * One turn of the colour loop of color_map: if can_color accepts
   * colors[clr] for `country`, paint it and colour the rest of the map;
   * unpaint it when that fails.
   */
  method TryColour(lists: array<List<string>>, n: nat, ghost v: seq<MapSpec.Country>, country: int, clr: int,
                   colors: seq<string>, nColors: int, maxWord: nat)
    returns (ok: bool, ghost w: seq<MapSpec.Country>)
    requires Readable(lists, n, v) && Separate(lists, n) && MapSpec.AllResolve(v)
    requires 0 <= country < n && !MapSpec.Colored(v[country])
    requires nColors <= |colors| && |MapSpec.NoColor| <= maxWord && 0 <= clr < nColors
    requires forall k :: 0 <= k < nColors ==> colors[k] != MapSpec.NoColor && |colors[k]| <= maxWord
    modifies Footprint(lists, n)
    ensures Readable(lists, n, w) && Separate(lists, n) && Footprint(lists, n) == old(Footprint(lists, n))
    ensures ok ==> MapSpec.Completes(v, w, MapSpec.Palette(colors, nColors))
    ensures ok && MapSpec.Sound(v) ==> MapSpec.NoNewConflicts(v, w)
    ensures !ok ==> w == v
    ensures !ok && MapSpec.Sound(v) && MapSpec.CanColor(v, country, colors[clr], false) ==>
      !MapSpec.Colourable(MapSpec.Paint(v, country, colors[clr]), MapSpec.Palette(colors, nColors))
    decreases MapSpec.Uncoloured(v), 0
  {
    ghost var palette := MapSpec.Palette(colors, nColors);
    ghost var footprint := Footprint(lists, n);
    var can := CanColor(lists, n, v, country, colors[clr], false);
    if !can {
      return false, v;
    }
    PaintCountry(lists, n, v, country, Some(colors[clr]), maxWord);
    assert Footprint(lists, n) == footprint;
    ghost var p := MapSpec.Paint(v, country, colors[clr]);
    MapSpec.PaintLowers(v, country, colors[clr]);
    MapSpec.ShapeKeepsScans(v, p);
    ok, w := ColorMap(lists, n, p, colors, nColors, maxWord);
    assert Footprint(lists, n) == footprint;
    if ok {
      assert palette[clr] == colors[clr];
      MapSpec.PaintedCompletes(v, country, colors[clr], palette, w);
      if MapSpec.Sound(v) {
        MapSpec.PaintedBranch(v, country, colors[clr], palette, w);
      }
      return;
    }
    UnpaintCountry(lists, n, p, country, maxWord);
    assert Footprint(lists, n) == footprint;
    MapSpec.UnpaintRestores(v, country, colors[clr]);
    w := v;
  }

  /**
   * comparator (for qsort): negative when `p` has more neighbours than `q`,
   * zero when both have as many, positive when `p` has fewer.
   */
  function Comparator(p: List<string>, q: List<string>): (r: int)
    reads p, p.Repr, q, q.Repr
    requires p.Valid() && q.Valid()
    ensures r < 0 <==> |p.Contents| > |q.Contents|
    ensures r == 0 <==> |p.Contents| == |q.Contents|
  {
    (q.Size() - 2) - (p.Size() - 2)
  }

  /** No element occurs twice. */
  ghost predicate NoRepeats<T>(s: seq<T>)
  {
    forall a, b :: 0 <= a < b < |s| ==> s[a] != s[b]
  }

  /** The sequence with the elements at `j - 1` and `j` exchanged. */
  function Swapped<T>(s: seq<T>, j: int): (r: seq<T>)
    requires 0 < j < |s|
    ensures |r| == |s| && r[j - 1] == s[j] && r[j] == s[j - 1]
    ensures forall a :: 0 <= a < |s| && a != j - 1 && a != j ==> r[a] == s[a]
    ensures multiset(r) == multiset(s)
  {
    s[j - 1 := s[j]][j := s[j - 1]]
  }

  /** Exchanging two neighbours keeps a sequence free of repetitions. */
  lemma SwappedNoRepeats<T>(s: seq<T>, j: int)
    requires 0 < j < |s| && NoRepeats(s)
    ensures NoRepeats(Swapped(s, j))
  {
    var r := Swapped(s, j);
    forall a, b | 0 <= a < b < |r|
      ensures r[a] != r[b]
    {
      var a' := if a == j - 1 then j else if a == j then j - 1 else a;
      var b' := if b == j - 1 then j else if b == j then j - 1 else b;
      assert r[a] == s[a'] && r[b] == s[b'];
    }
  }

  /**
   * The lists of a map seen as a set: each valid and disjoint from the
   * others and from the array, and every slot holds one of them, a
   * different one in each slot.
   */
  lemma Owners(lists: array<List<string>>, n: nat, v: seq<MapSpec.Country>) returns (handles: set<List<string>>)
    requires Readable(lists, n, v) && Separate(lists, n)
    ensures forall a :: 0 <= a < n ==> lists[a] in handles
    ensures NoRepeats(Slots(lists, n))
    ensures forall h :: h in handles ==> h.Valid() && lists !in h.Repr && |h.Contents| >= 2
    ensures forall h, g :: h in handles && g in handles && h != g ==> h.Repr !! g.Repr
  {
    HoldsAll(lists, n, v, n);
    SeparateAll(lists, n, n);
    handles := Handles(lists, n);
    forall a, b | 0 <= a < b < n
      ensures Slots(lists, n)[a] != Slots(lists, n)[b]
    {
      assert lists[a] in lists[a].Repr && lists[b] in lists[b].Repr;
    }
  }

  /**
   * One insertion of the sort: moves the list at position `i` left past
   * every list with fewer neighbours, so that the first `i + 1` lists are
   * ordered by non-increasing size.
   */
  method Sink(s: seq<List<string>>, ghost handles: set<List<string>>, i: int) returns (sorted: seq<List<string>>)
    requires forall h :: h in handles ==> h.Valid()
    requires (forall a :: 0 <= a < |s| ==> s[a] in handles) && NoRepeats(s) && 0 <= i < |s|
    requires forall a, b :: 0 <= a < b < i ==> |s[a].Contents| >= |s[b].Contents|
    ensures |sorted| == |s|
    ensures (forall a :: 0 <= a < |sorted| ==> sorted[a] in handles) && NoRepeats(sorted)
    ensures multiset(sorted) == multiset(s)
    ensures forall a, b :: 0 <= a < b <= i ==> |sorted[a].Contents| >= |sorted[b].Contents|
  {
    sorted := s;
    var j := i;
    while j > 0 && Comparator(sorted[j - 1], sorted[j]) > 0
      invariant 0 <= j <= i && |sorted| == |s|
      invariant (forall a :: 0 <= a < |sorted| ==> sorted[a] in handles) && NoRepeats(sorted)
      invariant multiset(sorted) == multiset(s)
      invariant Sinking(sorted, i, j)
    {
      SinkStep(sorted, handles, s, i, j);
      sorted := Swapped(sorted, j);
      j := j - 1;
    }
    SinkDone(sorted, i, j);
  }

  /**
   * The state of Sink while the list at `j` moves left: the first `i + 1`
   * lists other than the one at `j` are ordered by non-increasing length,
   * and the one at `j` is longer than every list to its right.
   */
  ghost predicate Sinking(s: seq<List<string>>, i: int, j: int)
    reads set a | 0 <= a < |s| :: s[a]
  {
    && 0 <= j <= i < |s|
    && (forall a, b :: 0 <= a < b <= i && a != j && b != j ==> |s[a].Contents| >= |s[b].Contents|)
    && (forall b :: j < b <= i ==> |s[j].Contents| > |s[b].Contents|)
  }

  /** One exchange of Sink keeps its state, one place further left. */
  lemma SwappedSinks(s: seq<List<string>>, i: int, j: int)
    requires Sinking(s, i, j) && 0 < j && |s[j - 1].Contents| < |s[j].Contents|
    ensures Sinking(Swapped(s, j), i, j - 1)
  {
    var r := Swapped(s, j);
    forall a, b | 0 <= a < b <= i && a != j - 1 && b != j - 1
      ensures |r[a].Contents| >= |r[b].Contents|
    {
      if b == j {
        assert r[b] == s[j - 1];
        if a < j - 1 {
          assert |s[a].Contents| >= |s[j - 1].Contents|;
        }
      }
    }
  }

  /** One exchange of Sink keeps every invariant of its loop. */
  lemma SinkStep(sorted: seq<List<string>>, handles: set<List<string>>, s: seq<List<string>>, i: int, j: int)
    requires (forall a :: 0 <= a < |sorted| ==> sorted[a] in handles) && NoRepeats(sorted)
    requires multiset(sorted) == multiset(s) && Sinking(sorted, i, j)
    requires 0 < j && |sorted[j - 1].Contents| < |sorted[j].Contents|
    ensures (forall a :: 0 <= a < |sorted| ==> Swapped(sorted, j)[a] in handles) && NoRepeats(Swapped(sorted, j))
    ensures multiset(Swapped(sorted, j)) == multiset(s) && Sinking(Swapped(sorted, j), i, j - 1)
  {
    SwappedNoRepeats(sorted, j);
    SwappedSinks(sorted, i, j);
  }

  /** Sink stops where the list at `j` is no longer than its left neighbour: the prefix is ordered. */
  lemma SinkDone(s: seq<List<string>>, i: int, j: int)
    requires Sinking(s, i, j) && (j == 0 || |s[j - 1].Contents| >= |s[j].Contents|)
    ensures forall a, b :: 0 <= a < b <= i ==> |s[a].Contents| >= |s[b].Contents|
  {
    forall a, b | 0 <= a < b <= i
      ensures |s[a].Contents| >= |s[b].Contents|
    {
      if a == j {
      } else if b == j {
        assert |s[a].Contents| >= |s[j - 1].Contents|;
      }
    }
  }

  /**
   * The sort that stands for qsort in sort_map: an insertion sort of a
   * sequence of lists, ordered by comparator (longer lists, that is more
   * neighbours, first).
   */
  method SortSlots(slots: seq<List<string>>, ghost handles: set<List<string>>) returns (sorted: seq<List<string>>)
    requires forall h :: h in handles ==> h.Valid()
    requires (forall a :: 0 <= a < |slots| ==> slots[a] in handles) && NoRepeats(slots)
    ensures |sorted| == |slots|
    ensures (forall a :: 0 <= a < |sorted| ==> sorted[a] in handles) && NoRepeats(sorted)
    ensures multiset(sorted) == multiset(slots)
    ensures forall a, b :: 0 <= a < b < |sorted| ==> |sorted[a].Contents| >= |sorted[b].Contents|
  {
    sorted := slots;
    var i := 0;
    while i < |slots|
      invariant 0 <= i <= |slots| && |sorted| == |slots|
      invariant (forall a :: 0 <= a < |sorted| ==> sorted[a] in handles) && NoRepeats(sorted)
      invariant multiset(sorted) == multiset(slots)
      invariant forall a, b :: 0 <= a < b < i ==> |sorted[a].Contents| >= |sorted[b].Contents|
    {
      sorted := Sink(sorted, handles, i);
      i := i + 1;
    }
  }

  /** The sequence of the values `m` gives to the elements of `s`. */
  function Image<T, U>(s: seq<T>, m: map<T, U>): (r: seq<U>)
    requires forall a :: 0 <= a < |s| ==> s[a] in m
    ensures |r| == |s| && forall a :: 0 <= a < |s| ==> r[a] == m[s[a]]
  {
    if s == [] then [] else [m[s[0]]] + Image(s[1..], m)
  }

  /** Taking one element out of a sequence takes it out of its multiset. */
  lemma TakeOut<T>(t: seq<T>, k: int)
    requires 0 <= k < |t|
    ensures multiset(t[..k] + t[k + 1..]) + multiset{t[k]} == multiset(t)
  {
    assert t == t[..k] + [t[k]] + t[k + 1..];
  }

  /** One element less on both sides of an equation of multisets. */
  lemma Cancel<T>(p: multiset<T>, q: multiset<T>, x: T)
    requires p + multiset{x} == q + multiset{x}
    ensures p == q
  {
    assert p == p + multiset{x} - multiset{x};
    assert q == q + multiset{x} - multiset{x};
  }

  /** The image of a sequence with one element taken out. */
  lemma ImageTakeOut<T, U>(t: seq<T>, k: int, m: map<T, U>)
    requires forall a :: 0 <= a < |t| ==> t[a] in m
    requires 0 <= k < |t|
    ensures Image(t[..k] + t[k + 1..], m) == Image(t, m)[..k] + Image(t, m)[k + 1..]
  {
    var r := Image(t[..k] + t[k + 1..], m);
    var c := Image(t, m);
    forall a | 0 <= a < |r|
      ensures r[a] == (c[..k] + c[k + 1..])[a]
    {
      if a < k {
        assert r[a] == m[t[a]];
      } else {
        assert r[a] == m[t[a + 1]];
      }
    }
  }

  /** The first element of `s` sits somewhere in a permutation `t`; the rest of both are permutations. */
  lemma Match<T>(s: seq<T>, t: seq<T>) returns (k: nat)
    requires s != [] && multiset(s) == multiset(t)
    ensures k < |t| && t[k] == s[0]
    ensures multiset(s[1..]) == multiset(t[..k] + t[k + 1..])
  {
    var x := s[0];
    assert x in multiset(s);
    k :| 0 <= k < |t| && t[k] == x;
    TakeOut(t, k);
    assert multiset(s) == multiset{x} + multiset(s[1..]) by {
      assert s == [x] + s[1..];
    }
    Cancel(multiset(s[1..]), multiset(t[..k] + t[k + 1..]), x);
  }

  /** Two sequences that match up to one element each, the same on both sides, are permutations. */
  lemma PermStep<U>(p: seq<U>, q: seq<U>, k: nat)
    requires p != [] && k < |q| && p[0] == q[k]
    requires multiset(p[1..]) == multiset(q[..k] + q[k + 1..])
    ensures multiset(p) == multiset(q)
  {
    TakeOut(q, k);
    assert p == [p[0]] + p[1..];
  }

  /** Permuting a sequence permutes its image the same way. */
  lemma {:induction false} ImagePerm<T, U>(s: seq<T>, t: seq<T>, m: map<T, U>)
    requires forall a :: 0 <= a < |s| ==> s[a] in m
    requires forall a :: 0 <= a < |t| ==> t[a] in m
    requires multiset(s) == multiset(t)
    ensures multiset(Image(s, m)) == multiset(Image(t, m))
    decreases |s|
  {
    if s == [] {
      assert |t| == |multiset(t)| == 0;
    } else {
      var k := Match(s, t);
      var rest := t[..k] + t[k + 1..];
      ImagePerm(s[1..], rest, m);
      ImageTakeOut(t, k, m);
      assert Image(s[1..], m) == Image(s, m)[1..];
      PermStep(Image(s, m), Image(t, m), k);
    }
  }

  /**
   * The countries of a permutation of the lists are a permutation of the
   * countries, and lists ordered by length give countries ordered by
   * neighbour count.
   */
  lemma PermutedCountries(s: seq<List<string>>, t: seq<List<string>>, v: seq<MapSpec.Country>) returns (w: seq<MapSpec.Country>)
    requires |v| == |s| && forall a :: 0 <= a < |s| ==> |s[a].Contents| >= 2 && v[a] == MapSpec.CountryOf(s[a].Contents)
    requires forall a :: 0 <= a < |t| ==> |t[a].Contents| >= 2
    requires multiset(s) == multiset(t)
    requires forall a, b :: 0 <= a < b < |t| ==> |t[a].Contents| >= |t[b].Contents|
    ensures |w| == |t| && forall a :: 0 <= a < |t| ==> w[a] == MapSpec.CountryOf(t[a].Contents)
    ensures multiset(w) == multiset(v)
    ensures forall a, b :: 0 <= a < b < |w| ==> |w[a].neighbours| >= |w[b].neighbours|
  {
    var m := map h | h in multiset(s) && |h.Contents| >= 2 :: MapSpec.CountryOf(h.Contents);
    assert forall a :: 0 <= a < |t| ==> t[a] in multiset(t);
    assert Image(s, m) == v;
    ImagePerm(s, t, m);
    w := Image(t, m);
  }

  /**
   * sort_map: reorders the first `n` slots so that countries with more
   * neighbours come first, and stores the sorted sequence back.  The lists
   * themselves are untouched: the slots hold a permutation of the same lists,
   * and `w` is the permuted sequence of countries, which keeps rule A and
   * soundness (MapSpec.PermutedSound).
   */
  method SortMap(lists: array<List<string>>, n: nat, ghost v: seq<MapSpec.Country>) returns (ghost w: seq<MapSpec.Country>)
    requires Readable(lists, n, v) && Separate(lists, n)
    modifies lists
    ensures Readable(lists, n, w) && Separate(lists, n)
    ensures multiset(Slots(lists, n)) == old(multiset(Slots(lists, n))) && lists[n..] == old(lists[n..])
    ensures multiset(w) == multiset(v)
    ensures forall a, b :: 0 <= a < b < n ==> |w[a].neighbours| >= |w[b].neighbours|
    ensures (MapSpec.AllResolve(v) ==> MapSpec.AllResolve(w)) && (MapSpec.Sound(v) ==> MapSpec.Sound(w))
  {
    ghost var handles := Owners(lists, n, v);
    HoldsAll(lists, n, v, n);
    var slots: seq<List<string>> := lists[..n];
    var sorted := SortSlots(slots, handles);
    w := PermutedCountries(slots, sorted, v);
    PutBack(lists, n, sorted, w, handles);
    MapSpec.PermutedSound(v, w);
  }

  /**
   * Stores a rearrangement of the lists of a map back into its slots; the
   * map then reads as the countries `w` those lists hold.
   */
  method PutBack(lists: array<List<string>>, n: nat, sorted: seq<List<string>>, ghost w: seq<MapSpec.Country>,
                 ghost handles: set<List<string>>)
    requires n <= lists.Length && |sorted| == n && |w| == n
    requires forall h :: h in handles ==> h.Valid() && lists !in h.Repr
    requires forall h, g :: h in handles && g in handles && h != g ==> h.Repr !! g.Repr
    requires (forall a :: 0 <= a < n ==> sorted[a] in handles) && NoRepeats(sorted)
    requires forall a :: 0 <= a < n ==> |sorted[a].Contents| >= 2 && w[a] == MapSpec.CountryOf(sorted[a].Contents)
    modifies lists
    ensures Readable(lists, n, w) && Separate(lists, n)
    ensures Slots(lists, n) == sorted && lists[n..] == old(lists[n..])
  {
    Store(lists, sorted);
    SlotsReadable(lists, n, w, sorted);
    SlotsSeparate(lists, n, sorted);
  }

  /** Writes `s` over the first `|s|` slots of `a`. */
  method Store<T>(a: array<T>, s: seq<T>)
    requires |s| <= a.Length
    modifies a
    ensures a[..|s|] == s && a[|s|..] == old(a[|s|..])
  {
    for k := 0 to |s|
      invariant a[..k] == s[..k] && a[k..] == old(a[k..])
    {
      a[k] := s[k];
      assert a[..k + 1] == s[..k + 1];
    }
  }

  /** An array whose slots hold valid lists with these countries is readable. */
  lemma SlotsReadable(lists: array<List<string>>, n: nat, w: seq<MapSpec.Country>, s: seq<List<string>>)
    requires n <= lists.Length && lists[..n] == s && |w| == n
    requires forall a :: 0 <= a < n ==> s[a].Valid() && |s[a].Contents| >= 2 && w[a] == MapSpec.CountryOf(s[a].Contents)
    ensures Readable(lists, n, w)
  {
    assert forall a :: 0 <= a < n ==> lists[a] == s[a];
    HoldsAll(lists, n, w, n);
  }

  /** An array whose slots hold lists with disjoint footprints is separate. */
  lemma SlotsSeparate(lists: array<List<string>>, n: nat, s: seq<List<string>>)
    requires n <= lists.Length && lists[..n] == s
    requires forall a :: 0 <= a < n ==> lists !in s[a].Repr
    requires forall a, b :: 0 <= a < n && 0 <= b < n && a != b ==> s[a].Repr !! s[b].Repr
    ensures Separate(lists, n)
  {
    assert forall a :: 0 <= a < n ==> lists[a] == s[a];
    SeparateAll(lists, n, n);
  }

  /**
   * map_copy: a new array whose slots hold the same lists as the first `n`
   * slots of `lists` (a shallow copy: the lists are shared, not duplicated).
   */
  method MapCopy(lists: array<List<string>>, n: nat) returns (copy: array<List<string>>)
    requires n <= lists.Length
    ensures fresh(copy) && copy.Length == n && copy[..] == lists[..n]
  {
    copy := new List<string>[n](i requires 0 <= i < n reads lists => lists[i]);
  }

  /**
   * Two arrays that hold the same list in some slots see the same country
   * there: a colour painted through the sorted map shows through the copy
   * taken before sorting.
   */
  lemma SharedList(a: array<List<string>>, u: seq<MapSpec.Country>, b: array<List<string>>, w: seq<MapSpec.Country>,
                   n: nat, i: int, j: int)
    requires Readable(a, n, u) && Readable(b, n, w)
    requires 0 <= i < n && 0 <= j < n && a[i] == b[j]
    ensures u[i] == w[j]
  {
    HoldsAt(a, n, u, n, i);
    HoldsAt(b, n, w, n, j);
  }

  /** A shallow copy of a map holds the same countries. */
  lemma CopyReadable(lists: array<List<string>>, copy: array<List<string>>, n: nat, v: seq<MapSpec.Country>)
    requires Readable(lists, n, v) && copy.Length == n && copy[..] == lists[..n]
    ensures Readable(copy, n, v)
  {
    HoldsAll(lists, n, v, n);
    forall a | 0 <= a < n
      ensures copy[a] == lists[a]
    {
      assert copy[..][a] == lists[..n][a];
    }
    HoldsAll(copy, n, v, n);
  }
}
