/**
 * The value-level model of a map: one `Country` per list of the map array.
 * A country's list holds its colour (or "nocolor") at position 0, its name at
 * position 1 and the names of its neighbours from position 2 on.
 *
 * The read-only scans of color.c are stated here as functions over a
 * sequence of countries; the list-walking methods of module `Color` are
 * proved to compute them.  The lemmas state what the scans and the
 * backtracking search guarantee in terms of adjacency between countries.
 */
module MapSpec {
  import opened Wrappers

  /** The colour slot of a country that has not been coloured yet. */
  const NoColor: string := "nocolor"

  datatype Country = Country(color: string, name: string, neighbours: seq<string>)

  /** The country described by the words of one list (at least colour and name). */
  function CountryOf(words: seq<string>): Country
    requires |words| >= 2
  {
    Country(words[0], words[1], words[2..])
  }

  /** get_color: the colour of a country, None while its slot holds "nocolor". */
  function Colour(c: Country): (r: Option<string>)
    ensures r == None <==> !Colored(c)
    ensures r != Some(NoColor)
  {
    if c.color == NoColor then None else Some(c.color)
  }

  predicate Colored(c: Country)
  {
    c.color != NoColor
  }

  /** The first index at or after `i` whose name is `name`, -1 if there is none. */
  function FindFrom(m: seq<Country>, name: string, i: nat): (r: int)
    requires i <= |m|
    ensures r == -1 || (i <= r < |m| && m[r].name == name)
    decreases |m| - i
  {
    if i == |m| then -1
    else if m[i].name == name then i
    else FindFrom(m, name, i + 1)
  }

  /** find_country: the index of a country called `name`, or -1 (see FindCountryLowest). */
  function FindCountry(m: seq<Country>, name: string): (r: int)
    ensures r == -1 || (0 <= r < |m| && m[r].name == name)
  {
    FindFrom(m, name, 0)
  }

  lemma {:induction false} FindFromLowest(m: seq<Country>, name: string, i: nat)
    requires i <= |m|
    ensures forall j :: i <= j < |m| && m[j].name == name ==> 0 <= FindFrom(m, name, i) <= j
    decreases |m| - i
  {
    if i < |m| && m[i].name != name {
      FindFromLowest(m, name, i + 1);
    }
  }

  /**
   * find_country finds the lowest index holding `name`, and returns -1 only
   * when no country is called `name`.
   */
  lemma FindCountryLowest(m: seq<Country>, name: string)
    ensures forall j :: 0 <= j < |m| && m[j].name == name ==> 0 <= FindCountry(m, name) <= j
    ensures FindCountry(m, name) == -1 <==> forall j :: 0 <= j < |m| ==> m[j].name != name
  {
    FindFromLowest(m, name, 0);
  }

  /** get_color(find_country(name)): the colour of the country called `name`, for a name that resolves. */
  function ColourOf(m: seq<Country>, name: string): Option<string>
    requires FindCountry(m, name) >= 0
  {
    Colour(m[FindCountry(m, name)])
  }

  /** Every neighbour name of country `i` is the name of some country (rule A for `i`). */
  ghost predicate Resolves(m: seq<Country>, i: int)
    requires 0 <= i < |m|
  {
    forall k :: 0 <= k < |m[i].neighbours| ==> FindCountry(m, m[i].neighbours[k]) >= 0
  }

  ghost predicate AllResolve(m: seq<Country>)
  {
    forall i :: 0 <= i < |m| ==> Resolves(m, i)
  }

  /**
   * can_color: false for a coloured country unless `checking`; otherwise true
   * exactly when no neighbour, found by name, currently has colour `color`.
   */
  ghost predicate CanColor(m: seq<Country>, i: int, color: string, checking: bool): (b: bool)
    requires 0 <= i < |m| && ((!checking && Colored(m[i])) || Resolves(m, i))
    ensures b && !checking ==> !Colored(m[i])
    ensures (checking || !Colored(m[i])) && |m[i].neighbours| == 0 ==> b
  {
    if !checking && Colored(m[i]) then false
    else if |m[i].neighbours| == 0 then true
    else forall k :: 0 <= k < |m[i].neighbours| ==> ColourOf(m, m[i].neighbours[k]) != Some(color)
  }

  /**
   * is_map_valid: every neighbour name resolves to a country (rule A) and
   * that country lists the first one among its neighbours (rule B).  A map
   * that passes resolves every neighbour name.
   */
  ghost predicate IsMapValid(m: seq<Country>): (b: bool)
    ensures b ==> AllResolve(m)
  {
    forall i, k :: 0 <= i < |m| && 0 <= k < |m[i].neighbours| ==>
      var j := FindCountry(m, m[i].neighbours[k]);
      j >= 0 && m[i].name in m[j].neighbours
  }

  /**
   * is_valid_coloring: every coloured country passes can_color with its own
   * colour, and none uses clrs[nClrs] while nClrs < maxClrs - 1.
   */
  ghost predicate IsValidColoring(m: seq<Country>, clrs: seq<string>, maxClrs: int, nClrs: int): (b: bool)
    requires forall i :: 0 <= i < |m| && Colored(m[i]) ==> Resolves(m, i)
    requires nClrs < maxClrs - 1 ==> 0 <= nClrs < |clrs|
    ensures (forall i :: 0 <= i < |m| ==> !Colored(m[i])) ==> b
  {
    forall i :: 0 <= i < |m| && Colored(m[i]) ==>
      && CanColor(m, i, m[i].color, true)
      && !(nClrs < maxClrs - 1 && m[i].color == clrs[nClrs])
  }

  /** Country `j` is named among the neighbours of country `i`. */
  ghost predicate Borders(m: seq<Country>, i: int, j: int)
    requires 0 <= i < |m| && 0 <= j < |m|
  {
    m[j].name in m[i].neighbours
  }

  ghost predicate UniqueNames(m: seq<Country>)
  {
    forall i, j :: 0 <= i < j < |m| ==> m[i].name != m[j].name
  }

  /** The maps on which the colouring guarantees hold. */
  ghost predicate Sound(m: seq<Country>)
  {
    IsMapValid(m) && UniqueNames(m)
  }

  /** Same countries, names and neighbour lists; colours may differ. */
  ghost predicate SameShape(a: seq<Country>, b: seq<Country>)
  {
    |a| == |b| &&
    forall i :: 0 <= i < |a| ==> a[i].name == b[i].name && a[i].neighbours == b[i].neighbours
  }

  /** The map with the colour slot of country `i` set to `color`. */
  function Paint(m: seq<Country>, i: int, color: string): (r: seq<Country>)
    requires 0 <= i < |m|
    ensures SameShape(m, r) && r[i].color == color
    ensures forall j :: 0 <= j < |m| && j != i ==> r[j] == m[j]
  {
    m[i := m[i].(color := color)]
  }

  /** Painting an uncoloured country and then painting it "nocolor" restores the map. */
  lemma UnpaintRestores(m: seq<Country>, i: int, color: string)
    requires 0 <= i < |m| && !Colored(m[i])
    ensures Paint(Paint(m, i, color), i, NoColor) == m
  {
    assert Paint(Paint(m, i, color), i, NoColor)[i] == m[i];
  }

  /**
   * `after` colours every country: those coloured in `before` keep their
   * colour, the others take a colour of `palette`.
   */
  ghost predicate Completes(before: seq<Country>, after: seq<Country>, palette: seq<string>)
  {
    && SameShape(before, after)
    && forall i :: 0 <= i < |after| ==>
         && Colored(after[i])
         && (Colored(before[i]) ==> after[i].color == before[i].color)
         && (!Colored(before[i]) ==> after[i].color in palette)
  }

  /** Two bordering countries of which one was uncoloured in `before` differ in `after`. */
  ghost predicate NoNewConflicts(before: seq<Country>, after: seq<Country>)
    requires |before| == |after|
  {
    forall i, j ::
      (0 <= i < |after| && 0 <= j < |after| && i != j && Borders(after, i, j) &&
       (!Colored(before[i]) || !Colored(before[j])))
      ==> after[i].color != after[j].color
  }

  /** Some completion of `m` with colours of `palette` creates no conflict. */
  ghost predicate Colourable(m: seq<Country>, palette: seq<string>)
  {
    exists after :: Completes(m, after, palette) && NoNewConflicts(m, after)
  }

  /** The colours color_map may use: the first `nColors` of `colors`, none when `nColors <= 0`. */
  function Palette(colors: seq<string>, nColors: int): (r: seq<string>)
    requires nColors <= |colors|
    ensures |r| == (if nColors <= 0 then 0 else nColors)
    ensures forall k :: 0 <= k < |r| ==> r[k] == colors[k]
  {
    if nColors <= 0 then [] else colors[..nColors]
  }

  /** The number of uncoloured countries. */
  function Uncoloured(m: seq<Country>): nat
  {
    if m == [] then 0 else (if Colored(m[0]) then 0 else 1) + Uncoloured(m[1..])
  }

  // ---------------------------------------------------------------------
  // Lemmas
  // ---------------------------------------------------------------------

  /** With distinct names, find_country of a country's own name finds that country. */
  lemma FindUnique(m: seq<Country>, j: int)
    requires UniqueNames(m) && 0 <= j < |m|
    ensures FindCountry(m, m[j].name) == j
  {
    FindCountryLowest(m, m[j].name);
  }

  /** The scans depend only on names and neighbour lists, not on colours. */
  lemma ShapeKeepsScans(a: seq<Country>, b: seq<Country>)
    requires SameShape(a, b)
    ensures forall name :: FindCountry(a, name) == FindCountry(b, name)
    ensures AllResolve(a) <==> AllResolve(b)
    ensures IsMapValid(a) <==> IsMapValid(b)
    ensures UniqueNames(a) <==> UniqueNames(b)
    ensures forall i, j :: 0 <= i < |a| && 0 <= j < |a| ==> (Borders(a, i, j) <==> Borders(b, i, j))
  {
    forall name
      ensures FindCountry(a, name) == FindCountry(b, name)
    {
      ShapeKeepsFind(a, b, name, 0);
    }
    forall i | 0 <= i < |a|
      ensures Resolves(a, i) <==> Resolves(b, i)
    {
      assert a[i].neighbours == b[i].neighbours;
    }
  }

  lemma {:induction false} ShapeKeepsFind(a: seq<Country>, b: seq<Country>, name: string, i: nat)
    requires SameShape(a, b) && i <= |a|
    ensures FindFrom(a, name, i) == FindFrom(b, name, i)
    decreases |a| - i
  {
    if i < |a| && a[i].name != name {
      ShapeKeepsFind(a, b, name, i + 1);
    }
  }

  /** On a valid map with distinct names, adjacency is symmetric (rule B). */
  lemma BordersSymmetric(m: seq<Country>, i: int, j: int)
    requires Sound(m) && 0 <= i < |m| && 0 <= j < |m|
    requires Borders(m, i, j)
    ensures Borders(m, j, i)
  {
    var k :| 0 <= k < |m[i].neighbours| && m[i].neighbours[k] == m[j].name;
    FindUnique(m, j);
    assert FindCountry(m, m[i].neighbours[k]) == j;
  }

  /**
   * With distinct names, can_color reads as a statement about adjacent
   * countries: every bordering country that is coloured has another colour.
   */
  lemma CanColorBorders(m: seq<Country>, i: int, color: string, checking: bool)
    requires UniqueNames(m) && 0 <= i < |m| && Resolves(m, i)
    ensures CanColor(m, i, color, checking) <==>
      (checking || !Colored(m[i])) &&
      forall j :: 0 <= j < |m| && Borders(m, i, j) && Colored(m[j]) ==> m[j].color != color
  {
    if checking || !Colored(m[i]) {
      var nbs := m[i].neighbours;
      if CanColor(m, i, color, checking) {
        forall j | 0 <= j < |m| && Borders(m, i, j) && Colored(m[j])
          ensures m[j].color != color
        {
          var k :| 0 <= k < |nbs| && nbs[k] == m[j].name;
          FindUnique(m, j);
          assert Colour(m[FindCountry(m, nbs[k])]) != Some(color);
        }
      }
      if forall j :: 0 <= j < |m| && Borders(m, i, j) && Colored(m[j]) ==> m[j].color != color {
        forall k | 0 <= k < |nbs|
          ensures Colour(m[FindCountry(m, nbs[k])]) != Some(color)
        {
          var j := FindCountry(m, nbs[k]);
          assert Borders(m, i, j);
        }
      }
    }
  }

  /**
   * With distinct names, a colouring passes is_valid_coloring exactly when no
   * two bordering coloured countries (a country listing itself included)
   * share a colour and no country uses clrs[nClrs] while nClrs < maxClrs - 1.
   */
  lemma ValidColoringMeans(m: seq<Country>, clrs: seq<string>, maxClrs: int, nClrs: int)
    requires UniqueNames(m) && AllResolve(m)
    requires nClrs < maxClrs - 1 ==> 0 <= nClrs < |clrs|
    ensures IsValidColoring(m, clrs, maxClrs, nClrs) <==>
      && (forall i, j :: 0 <= i < |m| && 0 <= j < |m| && Borders(m, i, j) && Colored(m[i]) && Colored(m[j]) ==>
            m[i].color != m[j].color)
      && (forall i :: 0 <= i < |m| && Colored(m[i]) ==> !(nClrs < maxClrs - 1 && m[i].color == clrs[nClrs]))
  {
    forall i | 0 <= i < |m|
      ensures CanColor(m, i, m[i].color, true) <==>
        forall j :: 0 <= j < |m| && Borders(m, i, j) && Colored(m[j]) ==> m[j].color != m[i].color
    {
      CanColorBorders(m, i, m[i].color, true);
    }
  }

  /** A coloured country that lists itself as a neighbour never passes is_valid_coloring. */
  lemma SelfBorderRejected(m: seq<Country>, clrs: seq<string>, maxClrs: int, nClrs: int, i: int)
    requires AllResolve(m) && UniqueNames(m)
    requires nClrs < maxClrs - 1 ==> 0 <= nClrs < |clrs|
    requires 0 <= i < |m| && Colored(m[i]) && Borders(m, i, i)
    ensures !IsValidColoring(m, clrs, maxClrs, nClrs)
  {
    CanColorBorders(m, i, m[i].color, true);
  }

  /**
   * A repeated name defeats can_color: here country 1 borders country 2 by
   * name, country 2 is red, and still country 1 may be painted red, on a map
   * that passes is_map_valid; the lookup of the name finds country 0 instead.
   */
  lemma RepeatedNameConflict()
    ensures var m := [Country(NoColor, "A", ["B"]), Country(NoColor, "B", ["A"]), Country("red", "A", ["B"])];
      && IsMapValid(m) && Borders(m, 1, 2) && Colored(m[2]) && m[2].color == "red"
      && CanColor(m, 1, "red", false)
  {
    var m := [Country(NoColor, "A", ["B"]), Country(NoColor, "B", ["A"]), Country("red", "A", ["B"])];
    assert FindCountry(m, "A") == 0;
    assert FindFrom(m, "B", 1) == 1;
    assert m[1].neighbours[0] == "A";
  }

  /** Painting an uncoloured country with a colour removes one uncoloured country. */
  lemma {:induction false} PaintLowers(m: seq<Country>, i: int, color: string)
    requires 0 <= i < |m| && !Colored(m[i]) && color != NoColor
    ensures Uncoloured(Paint(m, i, color)) == Uncoloured(m) - 1
  {
    if i > 0 {
      assert Paint(m, i, color)[1..] == Paint(m[1..], i - 1, color);
      PaintLowers(m[1..], i - 1, color);
    } else {
      assert Paint(m, i, color)[1..] == m[1..];
    }
  }

  /** A map with no uncoloured country is its own completion. */
  lemma AllColouredCompletes(m: seq<Country>, palette: seq<string>)
    requires forall i :: 0 <= i < |m| ==> Colored(m[i])
    ensures Completes(m, m, palette) && NoNewConflicts(m, m)
  {
  }

  /**
   * One step of the search, success side: painting an uncoloured country `i`
   * with a palette colour that can_color accepts, then completing the painted
   * map without new conflicts, completes the original map without new
   * conflicts.
   */
  lemma PaintedBranch(m: seq<Country>, i: int, color: string, palette: seq<string>, after: seq<Country>)
    requires Sound(m) && 0 <= i < |m| && !Colored(m[i]) && color in palette && color != NoColor
    requires CanColor(m, i, color, false)
    requires Completes(Paint(m, i, color), after, palette)
    requires NoNewConflicts(Paint(m, i, color), after)
    ensures Completes(m, after, palette) && NoNewConflicts(m, after)
  {
    var p := Paint(m, i, color);
    ShapeKeepsScans(m, after);
    CanColorBorders(m, i, color, false);
    forall a, b | 0 <= a < |after| && 0 <= b < |after| && a != b && Borders(after, a, b) &&
        (!Colored(m[a]) || !Colored(m[b]))
      ensures after[a].color != after[b].color
    {
      if a != i && b != i {
        assert p[a] == m[a] && p[b] == m[b];
      } else if a == i {
        if Colored(p[b]) {
          assert p[b] == m[b] && Borders(m, i, b);
        }
      } else {
        if Colored(p[a]) {
          assert p[a] == m[a] && Borders(m, a, i);
          BordersSymmetric(m, a, i);
        }
      }
    }
  }

  /**
   * One step of the search, success side, without hypotheses on the map:
   * completing the map painted at an uncoloured country `i` with a palette
   * colour completes the original map.
   */
  lemma PaintedCompletes(m: seq<Country>, i: int, color: string, palette: seq<string>, after: seq<Country>)
    requires 0 <= i < |m| && !Colored(m[i]) && color in palette
    requires Completes(Paint(m, i, color), after, palette)
    ensures Completes(m, after, palette)
  {
    var p := Paint(m, i, color);
    forall j | 0 <= j < |after| && !Colored(m[j])
      ensures after[j].color in palette
    {
      if j != i {
        assert p[j] == m[j];
      }
    }
  }

  /**
   * One step of the search, failure side: if no palette colour that
   * can_color accepts for the uncoloured country `i` leads to a colourable
   * map, then `m` is not colourable.
   */
  lemma AllBranchesFail(m: seq<Country>, i: int, palette: seq<string>)
    requires Sound(m) && 0 <= i < |m| && !Colored(m[i])
    requires forall q :: 0 <= q < |palette| && CanColor(m, i, palette[q], false) ==>
      !Colourable(Paint(m, i, palette[q]), palette)
    ensures !Colourable(m, palette)
  {
    if Colourable(m, palette) {
      var after: seq<Country> :| Completes(m, after, palette) && NoNewConflicts(m, after);
      var c := after[i].color;
      var q :| 0 <= q < |palette| && palette[q] == c;
      CompletionAccepted(m, i, after, palette);
      CompletionPainted(m, i, after, palette);
    }
  }

  /** The colour a conflict-free completion gives to an uncoloured country is one can_color accepts. */
  lemma CompletionAccepted(m: seq<Country>, i: int, after: seq<Country>, palette: seq<string>)
    requires Sound(m) && 0 <= i < |m| && !Colored(m[i])
    requires Completes(m, after, palette) && NoNewConflicts(m, after)
    ensures CanColor(m, i, after[i].color, false)
  {
    var c := after[i].color;
    ShapeKeepsScans(m, after);
    CanColorBorders(m, i, c, false);
    forall j | 0 <= j < |m| && Borders(m, i, j) && Colored(m[j])
      ensures m[j].color != c
    {
      if j != i {
        assert Borders(after, i, j);
      }
    }
  }

  /** A conflict-free completion of `m` is one of `m` painted as it colours country `i`. */
  lemma CompletionPainted(m: seq<Country>, i: int, after: seq<Country>, palette: seq<string>)
    requires 0 <= i < |m| && !Colored(m[i])
    requires Completes(m, after, palette) && NoNewConflicts(m, after)
    ensures Completes(Paint(m, i, after[i].color), after, palette)
    ensures NoNewConflicts(Paint(m, i, after[i].color), after)
  {
  }

  /** A country of a rearranged map is a country of the original one. */
  lemma Member(v: seq<Country>, w: seq<Country>, i: int) returns (p: int)
    requires multiset(v) == multiset(w) && 0 <= i < |w|
    ensures 0 <= p < |v| && v[p] == w[i]
  {
    assert w[i] in multiset(w);
    p :| 0 <= p < |v| && v[p] == w[i];
  }

  /** A country that appears twice in a map is counted twice by its multiset. */
  lemma Twice(w: seq<Country>, a: int, b: int)
    requires 0 <= a < b < |w| && w[a] == w[b]
    ensures multiset(w)[w[a]] >= 2
  {
    assert w == w[..b] + [w[b]] + w[b + 1..];
    assert w[a] in w[..b];
  }

  /** With distinct names, no country appears twice. */
  lemma Once(v: seq<Country>, x: Country)
    requires UniqueNames(v)
    ensures multiset(v)[x] <= 1
  {
    if x in v {
      var p :| 0 <= p < |v| && v[p] == x;
      assert v == v[..p] + [x] + v[p + 1..];
      assert x !in v[..p] && x !in v[p + 1..];
    }
  }

  /** A name held by some country of `v` is held by some country of `w`, and resolves there. */
  lemma NameKept(v: seq<Country>, w: seq<Country>, name: string)
    requires multiset(v) == multiset(w) && FindCountry(v, name) >= 0
    ensures FindCountry(w, name) >= 0
  {
    var x := v[FindCountry(v, name)];
    assert x in multiset(v);
    var q :| 0 <= q < |w| && w[q] == x;
    FindCountryLowest(w, name);
  }

  /** Rearranging a map keeps rule A. */
  lemma PermutedResolves(v: seq<Country>, w: seq<Country>)
    requires multiset(v) == multiset(w) && AllResolve(v)
    ensures AllResolve(w)
  {
    forall i, k | 0 <= i < |w| && 0 <= k < |w[i].neighbours|
      ensures FindCountry(w, w[i].neighbours[k]) >= 0
    {
      var p := Member(v, w, i);
      assert Resolves(v, p);
      NameKept(v, w, w[i].neighbours[k]);
    }
  }

  /** Rearranging a map with distinct names keeps its names distinct. */
  lemma PermutedUnique(v: seq<Country>, w: seq<Country>)
    requires multiset(v) == multiset(w) && UniqueNames(v)
    ensures UniqueNames(w)
  {
    forall a, b | 0 <= a < b < |w|
      ensures w[a].name != w[b].name
    {
      var p := Member(v, w, a);
      var q := Member(v, w, b);
      if w[a] == w[b] {
        Twice(w, a, b);
        Once(v, w[a]);
      } else {
        assert p != q;
      }
    }
  }

  /**
   * Rearranging a map keeps rule A, and keeps it sound: sorting the map
   * after is_map_valid passed leaves color_map a map it may rely on.
   * (is_map_valid alone is not kept: with a repeated name, the lookup may
   * find another country after the rearrangement.)
   */
  lemma PermutedSound(v: seq<Country>, w: seq<Country>)
    requires multiset(v) == multiset(w)
    ensures AllResolve(v) ==> AllResolve(w)
    ensures Sound(v) ==> Sound(w)
  {
    if AllResolve(v) {
      PermutedResolves(v, w);
    }
    if Sound(v) {
      PermutedUnique(v, w);
      PermutedResolves(v, w);
      forall i, k | 0 <= i < |w| && 0 <= k < |w[i].neighbours|
        ensures var j := FindCountry(w, w[i].neighbours[k]);
          j >= 0 && w[i].name in w[j].neighbours
      {
        var name := w[i].neighbours[k];
        var p := Member(v, w, i);
        var jv := FindCountry(v, name);
        assert jv >= 0 && v[p].name in v[jv].neighbours;
        var j := FindCountry(w, name);
        assert j >= 0 by {
          assert Resolves(w, i);
        }
        var r := Member(v, w, j);
        assert v[r].name == v[jv].name;
        assert r == jv;
      }
    }
  }
}
