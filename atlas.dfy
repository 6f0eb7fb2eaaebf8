// The luminance atlas (main in main.go): brightness -> tile, seeded with the
// blank tile at 0 and filled from the character set, plus its sorted keys.
module LumaAtlas {
  import opened Raster
  import opened Glyph
  import opened Resolver

  /** The character set, in the order the atlas is built from it. */
  const Charters: string := " .,;?!|-_~`@#$%^&*()=+abcdefghijklmnopqrstuvxxyzABCDEFGHIJKLMNOPQRSTUVXXYZ0123456789一二三四五六七八九十墨▇"

  /** The tile-producing font of a SquarePixels-sized atlas. */
  ghost predicate TileFont(font: Face) {
    RendersOpaqueTiles(font, SquarePixels, SquarePixels)
  }

  /** The glyph that loadChar gives for c when building the atlas. */
  ghost function Load(c: char, font: Face, luma: Luma): Option<Glyph>
    requires TileFont(font)
  {
    Rasterize(c, SquarePixels, SquarePixels, font, luma)
  }

  /** The character loads and its brightness is k. */
  ghost predicate LoadsAt(c: char, font: Face, luma: Luma, k: int)
    requires TileFont(font)
  {
    Load(c, font, luma).Some? && Load(c, font, luma).value.gray == k
  }

  /**
   * The brightness -> tile map after the characters of chars have been
   * loaded in order onto the map {0: blank}; each load overwrites the entry
   * at its brightness.
   */
  ghost function AtlasOf(chars: seq<char>, font: Face, luma: Luma): (m: map<int, Grid>)
    requires TileFont(font)
    ensures 0 in m
    ensures forall k | k in m :: 0 <= k <= 255
  {
    if chars == [] then map[0 := Blank()]
    else
      var m := AtlasOf(chars[..|chars| - 1], font, luma);
      match Load(chars[|chars| - 1], font, luma)
      case None => m
      case Some(g) => m[g.gray := g.tile]
  }

  /** The index of the last character of chars that loads at brightness k, if any. */
  ghost function LastAt(chars: seq<char>, font: Face, luma: Luma, k: int): (r: Option<nat>)
    requires TileFont(font)
    ensures r.Some? ==> r.value < |chars| && LoadsAt(chars[r.value], font, luma, k)
    ensures r.Some? ==> forall i | r.value < i < |chars| :: !LoadsAt(chars[i], font, luma, k)
    ensures r.None? ==> forall i | 0 <= i < |chars| :: !LoadsAt(chars[i], font, luma, k)
  {
    if chars == [] then None
    else if LoadsAt(chars[|chars| - 1], font, luma, k) then Some(|chars| - 1)
    else
      var r := LastAt(chars[..|chars| - 1], font, luma, k);
      assert forall i | 0 <= i < |chars| - 1 :: chars[..|chars| - 1][i] == chars[i];
      r
  }

  /**
   * Last writer wins: a brightness is a key exactly when it is 0 or some
   * character loads at it; its tile is that of the last character loading
   * at it, and the blank tile when there is none.
   */
  lemma {:induction false} AtlasEntry(chars: seq<char>, font: Face, luma: Luma, k: int)
    requires TileFont(font)
    ensures k in AtlasOf(chars, font, luma) <==> k == 0 || LastAt(chars, font, luma, k).Some?
    ensures k in AtlasOf(chars, font, luma) ==>
      AtlasOf(chars, font, luma)[k] == match LastAt(chars, font, luma, k)
                                      case None => Blank()
                                      case Some(i) => Load(chars[i], font, luma).value.tile
  {
    if chars != [] {
      var init := chars[..|chars| - 1];
      AtlasEntry(init, font, luma, k);
      var c := chars[|chars| - 1];
      if !LoadsAt(c, font, luma, k) {
        assert LastAt(chars, font, luma, k) == LastAt(init, font, luma, k);
        assert AtlasOf(chars, font, luma) == AtlasOf(init, font, luma) ||
               Load(c, font, luma).value.gray != k;
        if LastAt(init, font, luma, k).Some? {
          var i := LastAt(init, font, luma, k).value;
          assert init[i] == chars[i];
        }
      }
    }
  }

  /**
   * Key 0 keeps the blank tile exactly when no character loads at
   * brightness 0: a glyph tile is opaque, so it never equals the blank one.
   */
  lemma BlankSurvives(chars: seq<char>, font: Face, luma: Luma)
    requires TileFont(font)
    ensures AtlasOf(chars, font, luma)[0] == Blank() <==>
            forall i | 0 <= i < |chars| :: !LoadsAt(chars[i], font, luma, 0)
  {
    AtlasEntry(chars, font, luma, 0);
    var last := LastAt(chars, font, luma, 0);
    if last.Some? {
      var tile: Grid := Load(chars[last.value], font, luma).value.tile;
      assert tile[0][0].a == 255;
    }
  }

  /** Loading one more character updates the atlas at that glyph's brightness. */
  lemma AtlasStep(chars: seq<char>, n: nat, font: Face, luma: Luma)
    requires TileFont(font) && n < |chars|
    ensures AtlasOf(chars[..n + 1], font, luma) ==
      match Load(chars[n], font, luma)
      case None => AtlasOf(chars[..n], font, luma)
      case Some(g) => AtlasOf(chars[..n], font, luma)[g.gray := g.tile]
  {
    assert chars[..n + 1][..n] == chars[..n];
  }

  /** A font that lacks every glyph yields the atlas holding the blank tile alone. */
  lemma {:induction false} NoGlyphsOnlyBlank(chars: seq<char>, font: Face, luma: Luma)
    requires TileFont(font)
    requires forall i | 0 <= i < |chars| :: font.glyphBounds(chars[i]).None?
    ensures AtlasOf(chars, font, luma) == map[0 := Blank()]
  {
    if chars != [] {
      var init := chars[..|chars| - 1];
      assert forall i | 0 <= i < |init| :: init[i] == chars[i];
      NoGlyphsOnlyBlank(init, font, luma);
    }
  }

  /** Every tile of the atlas is a SquarePixels square of drawable pixels. */
  lemma {:induction false} AtlasTiles(chars: seq<char>, font: Face, luma: Luma)
    requires TileFont(font)
    ensures forall k | k in AtlasOf(chars, font, luma) ::
      IsGrid(AtlasOf(chars, font, luma)[k], SquarePixels, SquarePixels) && AllDrawable(AtlasOf(chars, font, luma)[k])
  {
    if chars != [] {
      AtlasTiles(chars[..|chars| - 1], font, luma);
    }
  }

  /** The atlas invariant: key 0 present, keys sorted and matching the map, tiles drawable squares. */
  ghost predicate WellFormedAtlas(tiles: map<int, Grid>, keys: seq<int>) {
    && 0 in tiles
    && StrictlyAscending(keys)
    && (forall k :: k in keys <==> k in tiles)
    && (forall k | k in tiles :: IsGrid(tiles[k], SquarePixels, SquarePixels) && AllDrawable(tiles[k]))
  }

  predicate Ascending(s: seq<int>) {
    forall i, j | 0 <= i < j < |s| :: s[i] <= s[j]
  }

  predicate NoDuplicates(s: seq<int>) {
    forall x | x in s :: multiset(s)[x] == 1
  }

  /** A sorted sequence without duplicates is strictly ascending. */
  lemma SortedDistinct(s: seq<int>)
    requires Ascending(s) && NoDuplicates(s)
    ensures StrictlyAscending(s)
  {
    forall i, j | 0 <= i < j < |s|
      ensures s[i] < s[j]
    {
      if s[i] == s[j] {
        RepeatCounts(s, i, j);
        assert false;
      }
    }
  }

  /** How a brightness can appear twice in a sequence. */
  lemma RepeatCounts(s: seq<int>, i: int, j: int)
    requires 0 <= i < j < |s| && s[i] == s[j]
    ensures multiset(s)[s[i]] >= 2
  {
    assert s == s[..j] + s[j..];
    assert s[i] in s[..j];
    assert s[j] in s[j..];
  }

  /** The keys of m, each once, in the order the map hands them out (which Go leaves unspecified). */
  method CollectKeys<V>(m: map<int, V>) returns (keys: seq<int>)
    ensures forall k :: k in keys <==> k in m
    ensures NoDuplicates(keys)
  {
    keys := [];
    var rest := m.Keys;
    while rest != {}
      invariant rest <= m.Keys
      invariant forall k :: k in keys <==> k in m && k !in rest
      invariant NoDuplicates(keys)
      decreases |rest|
    {
      assert (forall x :: x !in rest) ==> rest == {};
      var k :| k in rest;
      keys := keys + [k];
      rest := rest - {k};
    }
  }

  /** Putting x after the elements below it keeps a sorted sequence sorted. */
  lemma InsertAt(s: seq<int>, p: nat, x: int)
    requires Ascending(s) && p <= |s|
    requires forall q | 0 <= q < p :: s[q] < x
    requires p < |s| ==> x <= s[p]
    ensures Ascending(s[..p] + [x] + s[p..])
    ensures multiset(s[..p] + [x] + s[p..]) == multiset(s) + multiset{x}
  {
    assert s == s[..p] + s[p..];
  }

  /** sort.Ints: the keys in ascending order (here by insertion). */
  method SortInts(a: seq<int>) returns (s: seq<int>)
    ensures Ascending(s)
    ensures multiset(s) == multiset(a)
  {
    s := [];
    for n := 0 to |a|
      invariant Ascending(s)
      invariant multiset(s) == multiset(a[..n])
    {
      var x := a[n];
      var p := 0;
      while p < |s| && s[p] < x
        invariant 0 <= p <= |s|
        invariant forall q | 0 <= q < p :: s[q] < x
      {
        p := p + 1;
      }
      InsertAt(s, p, x);
      assert a[..n + 1] == a[..n] + [x];
      s := s[..p] + [x] + s[p..];
    }
    assert a[..|a|] == a;
  }

  /** The atlas and its sorted key list (the globals mapped and mappedKeys). */
  class Atlas {
    var mapped: map<int, Grid>
    var mappedKeys: seq<int>

    ghost predicate Valid()
      reads this
    {
      WellFormedAtlas(mapped, mappedKeys)
    }

    /**
     * Seed {0: blank}, load every character of Charters in order, then
     * collect the keys in the map's (unspecified) iteration order and sort them.
     */
    constructor Build(font: Face, luma: Luma)
      requires TileFont(font)
      ensures Valid()
      ensures mapped == AtlasOf(Charters, font, luma)
      ensures forall k :: k in mappedKeys <==> k in mapped
    {
      var m := map[0 := Blank()];
      for n := 0 to |Charters|
        invariant m == AtlasOf(Charters[..n], font, luma)
      {
        var g := LoadChar(Charters[n], SquarePixels, SquarePixels, font, luma);
        AtlasStep(Charters, n, font, luma);
        if g.Some? {
          m := m[g.value.gray := g.value.tile];
        }
      }
      assert Charters[..|Charters|] == Charters;
      AtlasTiles(Charters, font, luma);

      var keys := CollectKeys(m);
      keys := SortInts(keys);
      SortedDistinct(keys);
      mapped := m;
      mappedKeys := keys;
    }
  }
}
