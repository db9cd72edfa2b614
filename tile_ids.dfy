/**
 * Tile ids and grid coordinates: `location_expr = re.compile(r'(\d{2})(\d{3})(\d+)')`
 * splits a tile id into latitude, longitude and quadrangle number, and one
 * quadrangle is an 8 by 8 block of tiles on the output grid.
 */
module TileIds {
  import opened Wrappers
  import opened FileNames

  /** The three numbers a tile id encodes; `quadrangle` is 1-based as written. */
  datatype Location = Location(latitude: nat, longitude: nat, quadrangle: nat)

  /** A position on the tile grid: x grows eastward, y grows southward. */
  datatype Coord = Coord(x: int, y: int)

  function DigitValue(c: char): nat
    requires IsDigit(c)
  {
    (c as int) - ('0' as int)
  }

  function DigitChar(d: nat): (c: char)
    requires d < 10
    ensures IsDigit(c) && DigitValue(c) == d
  {
    (('0' as int) + d) as char
  }

  /** Python's `int()` of a string of decimal digits: `n` digits hold a value below 10^n. */
  function DecimalValue(s: string): (v: nat)
    requires AllIn(Digit, s)
    ensures v < Pow10(|s|)
    decreases |s|
  {
    if |s| == 0 then 0
    else
      assert AllIn(Digit, s[..|s| - 1]) && InClass(Digit, s[|s| - 1]);
      DecimalValue(s[..|s| - 1]) * 10 + DigitValue(s[|s| - 1])
  }

  function Pow10(n: nat): (p: nat)
    ensures p > 0
  {
    if n == 0 then 1 else 10 * Pow10(n - 1)
  }

  /** `v` written with exactly `n` decimal digits, zero-padded (the low `n` digits of `v`). */
  function Decimal(v: nat, n: nat): (s: string)
    ensures |s| == n && AllIn(Digit, s)
  {
    if n == 0 then "" else Decimal(v / 10, n - 1) + [DigitChar(v % 10)]
  }

  /** Writing a digit string's value back with as many digits gives the string again. */
  lemma {:induction false} DecimalOfValue(s: string)
    requires AllIn(Digit, s)
    ensures Decimal(DecimalValue(s), |s|) == s
    decreases |s|
  {
    if |s| > 0 {
      var init := s[..|s| - 1];
      var d := DigitValue(s[|s| - 1]);
      assert AllIn(Digit, init);
      var v := DecimalValue(s);
      assert v == DecimalValue(init) * 10 + d;
      assert v / 10 == DecimalValue(init) && v % 10 == d;
      DecimalOfValue(init);
      assert DigitChar(d) == s[|s| - 1];
      assert s == init + [s[|s| - 1]];
    }
  }

  /** Reading back a number written with enough digits gives the number. */
  lemma {:induction false} ValueOfDecimal(v: nat, n: nat)
    requires v < Pow10(n)
    ensures DecimalValue(Decimal(v, n)) == v
    decreases n
  {
    if n > 0 {
      assert v / 10 < Pow10(n - 1);
      ValueOfDecimal(v / 10, n - 1);
      var s := Decimal(v, n);
      assert s[..n - 1] == Decimal(v / 10, n - 1);
      assert s[n - 1] == DigitChar(v % 10);
    }
  }

  /**
   * `location_expr.match(id)`: `None` where Python gets no match (and line 75
   * then fails).  Group 3 is the whole digit run from position 5.
   */
  function DecodeTileId(id: string): (r: Option<Location>)
    ensures r.Some? <==> |id| >= 6 && AllIn(Digit, id[..6])
  {
    if |id| < 6 || !AllIn(Digit, id[..6]) then None
    else
      assert AllIn(Digit, id[..2]) && AllIn(Digit, id[2..5]) by {
        assert forall i | 0 <= i < 2 :: id[..2][i] == id[..6][i];
        assert forall i | 0 <= i < 3 :: id[2..5][i] == id[..6][i + 2];
      }
      var n := Run(Digit, id[5..]);
      assert id[5..][..n] == id[5..5 + n];
      Some(Location(DecimalValue(id[..2]), DecimalValue(id[2..5]), DecimalValue(id[5..5 + n])))
  }

  /**
   * Decoding an all-digit id of six or more digits succeeds, and writing the
   * three numbers back with 2, 3 and the remaining number of digits gives the
   * id again.
   */
  lemma TileIdRoundTrip(id: string)
    requires AllIn(Digit, id) && |id| >= 6
    ensures DecodeTileId(id).Some?
    ensures var loc := DecodeTileId(id).value;
      Decimal(loc.latitude, 2) + Decimal(loc.longitude, 3) + Decimal(loc.quadrangle, |id| - 5) == id
  {
    DecodeDigits(id);
    DigitsWrittenBack(id);
    SplitTwice(id, 2, 5);
  }

  /** The three digit groups of an all-digit id, read and written back with as many digits. */
  lemma DigitsWrittenBack(id: string)
    requires AllIn(Digit, id) && |id| >= 6
    requires AllIn(Digit, id[..2]) && AllIn(Digit, id[2..5]) && AllIn(Digit, id[5..])
    ensures Decimal(DecimalValue(id[..2]), 2) == id[..2]
    ensures Decimal(DecimalValue(id[2..5]), 3) == id[2..5]
    ensures Decimal(DecimalValue(id[5..]), |id| - 5) == id[5..]
  {
    DecimalOfValue(id[..2]);
    DecimalOfValue(id[2..5]);
    DecimalOfValue(id[5..]);
  }

  /** Cutting a string at two points and joining the three pieces gives it back. */
  lemma SplitTwice(s: string, i: nat, j: nat)
    requires i <= j <= |s|
    ensures s[..i] + s[i..j] + s[j..] == s
  {
    assert s[..i] + s[i..j] == s[..j];
    assert s[..j] + s[j..] == s;
  }

  /** An all-digit id of six or more digits decodes to the values of its first two, next three and remaining digits. */
  lemma DecodeDigits(id: string)
    requires AllIn(Digit, id) && |id| >= 6
    ensures AllIn(Digit, id[..2]) && AllIn(Digit, id[2..5]) && AllIn(Digit, id[5..])
    ensures DecodeTileId(id) == Some(Location(DecimalValue(id[..2]), DecimalValue(id[2..5]), DecimalValue(id[5..])))
  {
    assert AllIn(Digit, id[..6]) by {
      assert forall i | 0 <= i < 6 :: id[..6][i] == id[i];
    }
    assert AllIn(Digit, id[..2]) && AllIn(Digit, id[2..5]) by {
      assert forall i | 0 <= i < 2 :: id[..2][i] == id[i];
      assert forall i | 0 <= i < 3 :: id[2..5][i] == id[i + 2];
    }
    var tail := id[5..];
    assert AllIn(Digit, tail) by {
      assert forall i | 0 <= i < |id| - 5 :: tail[i] == id[i + 5];
    }
    assert Run(Digit, tail) == |tail| by {
      assert tail + "" == tail;
      RunIs(Digit, tail, "");
    }
    assert id[5..5 + |tail|] == tail;
  }

  /** Writing a location with 2, 3 and n >= 1 digits and decoding it gives the location back. */
  lemma TileIdEncodeDecode(loc: Location, n: nat)
    requires n >= 1 && loc.latitude < 100 && loc.longitude < 1000 && loc.quadrangle < Pow10(n)
    ensures DecodeTileId(Decimal(loc.latitude, 2) + Decimal(loc.longitude, 3) + Decimal(loc.quadrangle, n))
            == Some(loc)
  {
    var a, b, c := Decimal(loc.latitude, 2), Decimal(loc.longitude, 3), Decimal(loc.quadrangle, n);
    var id := a + b + c;
    assert id[..2] == a && id[2..5] == b && id[5..] == c;
    assert AllIn(Digit, id[..6]);
    assert c + "" == c;
    RunIs(Digit, c, "");
    assert id[5..5 + n] == c;
    assert Pow10(2) == 100 && Pow10(3) == 1000;
    ValueOfDecimal(loc.latitude, 2);
    ValueOfDecimal(loc.longitude, 3);
    ValueOfDecimal(loc.quadrangle, n);
  }

  /**
   * The grid position of a tile, lines 77-82: `q = quadrangle - 1`,
   * `x = 8 * (180 - longitude) + q % 8`, `y = 8 * (90 - latitude) + q // 8`,
   * with Python's floor division and modulo (for divisor 8 they agree with
   * Dafny's, also for quadrangle 0).
   */
  function GridCoordinate(loc: Location): (c: Coord)
    ensures 0 <= c.x - 8 * (180 - loc.longitude) < 8
    ensures 8 * (c.y - 8 * (90 - loc.latitude)) + (c.x - 8 * (180 - loc.longitude)) == loc.quadrangle - 1
  {
    var q := loc.quadrangle - 1;
    Coord(8 * (180 - loc.longitude) + q % 8, 8 * (90 - loc.latitude) + q / 8)
  }

  lemma DivMod8(k: int, r: int)
    requires 0 <= r < 8
    ensures (8 * k + r) / 8 == k && (8 * k + r) % 8 == r
  {
  }

  /**
   * Within a row of the 8 by 8 block the next quadrangle is one step east
   * (x + 1); after every eighth one the row wraps: y grows by 1 and the
   * offset part of x goes from 7 back to 0.
   */
  lemma NextQuadrangle(lat: nat, lon: nat, q: nat)
    requires 1 <= q < 64
    ensures var a := GridCoordinate(Location(lat, lon, q));
            var b := GridCoordinate(Location(lat, lon, q + 1));
      if q % 8 != 0 then b == Coord(a.x + 1, a.y)
      else b.y == a.y + 1 && a.x % 8 == 7 && b.x % 8 == 0 && b.x == a.x - 7
  {
    var a := GridCoordinate(Location(lat, lon, q));
    var b := GridCoordinate(Location(lat, lon, q + 1));
    DivMod8(180 - lon, (q - 1) % 8);
    DivMod8(180 - lon, q % 8);
  }

  /** The grid position determines the location, for quadrangles 1 to 64. */
  lemma GridCoordinateInverse(loc: Location)
    requires 1 <= loc.quadrangle <= 64
    ensures var c := GridCoordinate(loc);
      loc.longitude == 180 - c.x / 8 && loc.latitude == 90 - c.y / 8 &&
      loc.quadrangle == 8 * (c.y % 8) + c.x % 8 + 1
  {
    var q := loc.quadrangle - 1;
    DivMod8(180 - loc.longitude, q % 8);
    DivMod8(90 - loc.latitude, q / 8);
  }

  /** Distinct locations with quadrangles 1 to 64 lie on distinct grid cells. */
  lemma GridCoordinateInjective(a: Location, b: Location)
    requires 1 <= a.quadrangle <= 64 && 1 <= b.quadrangle <= 64
    requires a != b
    ensures GridCoordinate(a) != GridCoordinate(b)
  {
    GridCoordinateInverse(a);
    GridCoordinateInverse(b);
  }
}
