/** The eight mask patterns as pictures, and the places of the format bits by coordinates. */
module MaskPictures {
  import opened Arithmetic
  import opened Grid
  import opened Mask

  /** The patterns of ISO/IEC 18004, section 7.8.2, as tiles that repeat in both directions; `#` is inverted. */
  const TILE_0: seq<string> := [
    "#.",
    ".#"]

  const TILE_1: seq<string> := [
    "#",
    "."]

  const TILE_2: seq<string> := [
    "#.."]

  const TILE_3: seq<string> := [
    "#..",
    "..#",
    ".#."]

  const TILE_4: seq<string> := [
    "###...",
    "###...",
    "...###",
    "...###"]

  const TILE_5: seq<string> := [
    "######",
    "#.....",
    "#..#..",
    "#.#.#.",
    "#..#..",
    "#....."]

  const TILE_6: seq<string> := [
    "######",
    "###...",
    "##.##.",
    "#.#.#.",
    "#.##.#",
    "#...##"]

  const TILE_7: seq<string> := [
    "#.#.#.",
    "...###",
    "#...##",
    ".#.#.#",
    "###...",
    ".###.."]

  const TILES: seq<seq<string>> := [TILE_0, TILE_1, TILE_2, TILE_3, TILE_4, TILE_5, TILE_6, TILE_7]

  /** A tile has rows of one width. */
  predicate IsTile(t: seq<string>, width: nat, height: nat) {
    width > 0 && height > 0 && |t| == height && forall y | 0 <= y < height :: |t[y]| == width
  }

  /** The picture shows an inverted module at (x, y). */
  predicate Shows(t: seq<string>, width: nat, height: nat, x: nat, y: nat)
    requires IsTile(t, width, height)
  {
    t[y % height][x % width] == '#'
  }

  lemma SumRemainder(x: nat, y: nat)
    ensures (x + y) % 2 == (x % 6 + y % 6) % 2
  {
    var a, b, c, d := x / 6, x % 6, y / 6, y % 6;
    assert x + y == 2 * (3 * a + 3 * c) + (b + d);
    EvenMultiple(3 * a + 3 * c, b + d);
  }

  lemma ProductRemainder(x: nat, y: nat)
    ensures x * y % 2 == x % 6 * (y % 6) % 2
    ensures x * y % 3 == x % 6 * (y % 6) % 3
  {
    var b, d := x % 6, y % 6;
    var k := ProductParts(x / 6, b, y / 6, d, x, y);
    MultipleOfSix(k, b * d);
  }

  lemma ProductParts(a: nat, b: nat, c: nat, d: nat, x: nat, y: nat) returns (k: nat)
    requires x == 6 * a + b && y == 6 * c + d
    ensures x * y == 6 * k + b * d
  {
    k := 6 * (a * c) + a * d + b * c;
    assert x * y == 6 * (a * y) + b * y;
    assert a * y == 6 * (a * c) + a * d;
    assert b * y == 6 * (b * c) + b * d;
  }

  lemma MultipleOfSix(k: nat, p: nat)
    ensures (6 * k + p) % 2 == p % 2 && (6 * k + p) % 3 == p % 3
  {
    EvenMultiple(3 * k, p);
    TripleMultiple(2 * k, p);
  }

  lemma EvenMultiple(k: nat, p: nat)
    ensures (2 * k + p) % 2 == p % 2
  {
  }

  lemma TripleMultiple(k: nat, p: nat)
    ensures (3 * k + p) % 3 == p % 3
  {
  }

  /** Patterns 0 to 4 depend on sums and quotients. */
  lemma SmallPictures(x: nat, y: nat)
    ensures IsTile(TILE_0, 2, 2) && (Inverts(0, x, y) <==> Shows(TILE_0, 2, 2, x, y))
    ensures IsTile(TILE_1, 1, 2) && (Inverts(1, x, y) <==> Shows(TILE_1, 1, 2, x, y))
    ensures IsTile(TILE_2, 3, 1) && (Inverts(2, x, y) <==> Shows(TILE_2, 3, 1, x, y))
    ensures IsTile(TILE_3, 3, 3) && (Inverts(3, x, y) <==> Shows(TILE_3, 3, 3, x, y))
  {
  }

  lemma BarPicture(x: nat, y: nat)
    ensures IsTile(TILE_4, 6, 4) && (Inverts(4, x, y) <==> Shows(TILE_4, 6, 4, x, y))
  {
    hide Inverts;
    BarRow(x % 6, y % 4);
    BarRemainder(x, y);
  }

  lemma BarRemainder(x: nat, y: nat)
    ensures Inverts(4, x, y) <==> x % 6 / 3 == y % 4 / 2
  {
    hide Inverts;
    BarSum(x, y);
    EvenSum(x / 3, y / 2);
    HalfOfSix(x);
    HalfOfFour(y);
  }

  lemma BarSum(x: nat, y: nat)
    ensures Inverts(4, x, y) <==> (x / 3 + y / 2) % 2 == 0
  {
  }

  lemma EvenSum(a: nat, b: nat)
    ensures (a + b) % 2 == 0 <==> a % 2 == b % 2
  {
  }

  lemma HalfOfSix(x: nat)
    ensures x / 3 % 2 == x % 6 / 3
  {
    var q, c := x / 6, x % 6;
    SmallParts(c, 3);
    DivModUnique(c % 3, 2 * q + c / 3, 3);
    EvenMultiple(q, c / 3);
  }

  lemma HalfOfFour(y: nat)
    ensures y / 2 % 2 == y % 4 / 2
  {
    var q, c := y / 4, y % 4;
    SmallParts(c, 2);
    DivModUnique(c % 2, 2 * q + c / 2, 2);
    EvenMultiple(q, c / 2);
  }

  lemma SmallParts(c: nat, m: nat)
    requires (m == 2 || m == 3) && c < 2 * m
    ensures c == c / m * m + c % m && c / m < 2
  {
  }

  lemma BarRow(c: nat, d: nat)
    requires c < 6 && d < 4
    ensures IsTile(TILE_4, 6, 4) && (c / 3 == d / 2 <==> TILE_4[d][c] == '#')
  {
    if d < 2 {
      assert TILE_4[d] == "###...";
    } else {
      assert TILE_4[d] == "...###";
    }
  }

  /** Patterns 5 to 7 depend on products, through the remainders modulo 6. */
  lemma Row5_0(c: nat)
    requires c < 6
    ensures Inverts(5, c, 0) <==> "######"[c] == '#'
  {
  }

  lemma Row5_1(c: nat)
    requires c < 6
    ensures Inverts(5, c, 1) <==> "#....."[c] == '#'
  {
  }

  lemma Row5_2(c: nat)
    requires c < 6
    ensures Inverts(5, c, 2) <==> "#..#.."[c] == '#'
  {
  }

  lemma Row5_3(c: nat)
    requires c < 6
    ensures Inverts(5, c, 3) <==> "#.#.#."[c] == '#'
  {
  }

  lemma Row5_4(c: nat)
    requires c < 6
    ensures Inverts(5, c, 4) <==> "#..#.."[c] == '#'
  {
  }

  lemma Row5_5(c: nat)
    requires c < 6
    ensures Inverts(5, c, 5) <==> "#....."[c] == '#'
  {
  }

  lemma ProductTile5(c: nat, d: nat)
    requires c < 6 && d < 6
    ensures IsTile(TILE_5, 6, 6) && (Inverts(5, c, d) <==> TILE_5[d][c] == '#')
  {
    hide Inverts;
    Row5_0(c);
    Row5_1(c);
    Row5_2(c);
    Row5_3(c);
    Row5_4(c);
    Row5_5(c);
  }

  lemma Row6_0(c: nat)
    requires c < 6
    ensures Inverts(6, c, 0) <==> "######"[c] == '#'
  {
  }

  lemma Row6_1(c: nat)
    requires c < 6
    ensures Inverts(6, c, 1) <==> "###..."[c] == '#'
  {
  }

  lemma Row6_2(c: nat)
    requires c < 6
    ensures Inverts(6, c, 2) <==> "##.##."[c] == '#'
  {
  }

  lemma Row6_3(c: nat)
    requires c < 6
    ensures Inverts(6, c, 3) <==> "#.#.#."[c] == '#'
  {
  }

  lemma Row6_4(c: nat)
    requires c < 6
    ensures Inverts(6, c, 4) <==> "#.##.#"[c] == '#'
  {
  }

  lemma Row6_5(c: nat)
    requires c < 6
    ensures Inverts(6, c, 5) <==> "#...##"[c] == '#'
  {
  }

  lemma ProductTile6(c: nat, d: nat)
    requires c < 6 && d < 6
    ensures IsTile(TILE_6, 6, 6) && (Inverts(6, c, d) <==> TILE_6[d][c] == '#')
  {
    hide Inverts;
    Row6_0(c);
    Row6_1(c);
    Row6_2(c);
    Row6_3(c);
    Row6_4(c);
    Row6_5(c);
  }

  lemma Row7_0(c: nat)
    requires c < 6
    ensures Inverts(7, c, 0) <==> "#.#.#."[c] == '#'
  {
  }

  lemma Row7_1(c: nat)
    requires c < 6
    ensures Inverts(7, c, 1) <==> "...###"[c] == '#'
  {
  }

  lemma Row7_2(c: nat)
    requires c < 6
    ensures Inverts(7, c, 2) <==> "#...##"[c] == '#'
  {
  }

  lemma Row7_3(c: nat)
    requires c < 6
    ensures Inverts(7, c, 3) <==> ".#.#.#"[c] == '#'
  {
  }

  lemma Row7_4(c: nat)
    requires c < 6
    ensures Inverts(7, c, 4) <==> "###..."[c] == '#'
  {
  }

  lemma Row7_5(c: nat)
    requires c < 6
    ensures Inverts(7, c, 5) <==> ".###.."[c] == '#'
  {
  }

  lemma ProductTile7(c: nat, d: nat)
    requires c < 6 && d < 6
    ensures IsTile(TILE_7, 6, 6) && (Inverts(7, c, d) <==> TILE_7[d][c] == '#')
  {
    hide Inverts;
    Row7_0(c);
    Row7_1(c);
    Row7_2(c);
    Row7_3(c);
    Row7_4(c);
    Row7_5(c);
  }

  lemma ProductPattern(mask: nat, x: nat, y: nat)
    requires 5 <= mask < 8
    ensures Inverts(mask, x, y) <==> Inverts(mask, x % 6, y % 6)
  {
    SumRemainder(x, y);
    ProductRemainder(x, y);
  }

  function Width(mask: nat): (w: nat)
    requires mask < 8
    ensures w > 0
  {
    [2, 1, 3, 3, 6, 6, 6, 6][mask]
  }

  function Height(mask: nat): (h: nat)
    requires mask < 8
    ensures h > 0
  {
    [2, 2, 1, 3, 4, 6, 6, 6][mask]
  }

  /** Every mask inverts exactly the modules that its picture shows, wherever they are. */
  lemma MaskIsPicture(mask: nat, x: nat, y: nat)
    requires mask < 8
    ensures IsTile(TILES[mask], Width(mask), Height(mask))
    ensures Inverts(mask, x, y) <==> Shows(TILES[mask], Width(mask), Height(mask), x, y)
  {
    hide Inverts;
    if mask < 4 {
      SmallPictures(x, y);
    } else if mask == 4 {
      BarPicture(x, y);
    } else {
      ProductPattern(mask, x, y);
      ProductTile5(x % 6, y % 6);
      ProductTile6(x % 6, y % 6);
      ProductTile7(x % 6, y % 6);
    }
  }

  // ----- the format bits

  /** The color at (x, y) of a grid. */
  function At(g: seq<bool>, n: nat, x: nat, y: nat): bool
    requires |g| == n * n && x < n && y < n
  {
    g[Index(n, x, y)]
  }

  lemma FormatAt(g: seq<bool>, n: nat, word: seq<bool>, x: nat, y: nat)
    requires n >= 21 && |g| == n * n && |word| == 15 && x < n && y < n
    ensures At(WithFormat(g, n, word), n, x, y)
         == if FormatOrder(n, x, y) < FORMAT_MODULES then FormatBit(word, FormatOrder(n, x, y)) else At(g, n, x, y)
  {
    hide FormatOrder, FormatBit;
    IndexInGrid(n, x, y);
  }

  /** The first copy runs down column 8 and then left along row 8, around the upper left corner, skipping row and
      column 6; the second copy begins at the right end of row 8 and goes on at the lower end of column 8, above which
      there is one dark module.  Bit 0 comes first. */
  lemma FormatPlaces(g: seq<bool>, n: nat, word: seq<bool>)
    requires n >= 21 && |g| == n * n && |word| == 15
    ensures var r := WithFormat(g, n, word);
      && (forall i | 0 <= i < 6 :: At(r, n, 8, i) == word[i])
      && At(r, n, 8, 7) == word[6] && At(r, n, 8, 8) == word[7] && At(r, n, 7, 8) == word[8]
      && (forall i | 9 <= i < 15 :: At(r, n, 14 - i, 8) == word[i])
      && (forall i | 0 <= i < 8 :: At(r, n, n - 1 - i, 8) == word[i])
      && (forall i | 8 <= i < 15 :: At(r, n, 8, n - 15 + i) == word[i])
      && At(r, n, 8, n - 8)
  {
    hide WithFormat, At;
    var r := WithFormat(g, n, word);
    forall i | 0 <= i < 6
      ensures At(r, n, 8, i) == word[i]
    {
      FormatAt(g, n, word, 8, i);
    }
    FormatAt(g, n, word, 8, 7);
    FormatAt(g, n, word, 8, 8);
    FormatAt(g, n, word, 7, 8);
    forall i | 9 <= i < 15
      ensures At(r, n, 14 - i, 8) == word[i]
    {
      FormatAt(g, n, word, 14 - i, 8);
    }
    forall i | 0 <= i < 8
      ensures At(r, n, n - 1 - i, 8) == word[i]
    {
      FormatAt(g, n, word, n - 1 - i, 8);
    }
    forall i | 8 <= i < 15
      ensures At(r, n, 8, n - 15 + i) == word[i]
    {
      FormatAt(g, n, word, 8, n - 15 + i);
    }
    FormatAt(g, n, word, 8, n - 8);
  }

  /** All other modules stay as they are. */
  lemma FormatElsewhere(g: seq<bool>, n: nat, word: seq<bool>, x: nat, y: nat)
    requires n >= 21 && |g| == n * n && |word| == 15 && x < n && y < n
    requires !(x == 8 && y != 6 && (y <= 8 || y >= n - 8)) && !(y == 8 && x != 6 && (x <= 8 || x >= n - 8))
    ensures At(WithFormat(g, n, word), n, x, y) == At(g, n, x, y)
  {
    hide WithFormat, At;
    FormatAt(g, n, word, x, y);
  }
}
