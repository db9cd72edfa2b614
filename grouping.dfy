/**
 * The scan of the directory listing in `main` (lines 56-64): every file name
 * that matches the fragment pattern is filed in the `tiles` dictionary under
 * its tile id and then its quadrant token; a later file with the same id and
 * token replaces the earlier one, and the token is not checked against the
 * four quadrant names.
 */
module Grouping {
  import opened Wrappers
  import opened FileNames

  /**
   * The `tiles` dictionary: tile id -> quadrant token -> file name.  Python
   * dictionaries keep insertion order, which the program relies on later:
   * `order` lists the tile ids in the order they were first inserted and
   * `first[id]` is the token first inserted for `id` (`list(tile)[0]`).
   */
  datatype Grouping = Grouping(tiles: map<string, map<string, string>>, order: seq<string>, first: map<string, string>)

  const NoTiles := Grouping(map[], [], map[])

  /**
   * Filing one listed name (the body of the loop): a name the pattern does
   * not match changes nothing, a matching one is entered under its tile id
   * and token.
   */
  function Insert(g: Grouping, file: string): (r: Grouping)
    ensures ParseFileName(file).None? ==> r == g
    ensures ParseFileName(file).Some? ==> r == Enter(g, ParseFileName(file).value, file)
  {
    match ParseFileName(file)
    case None => g
    case Some(n) => Enter(g, n, file)
  }

  /**
   * Lines 61-64 for a matching name: a new entry under a known id, or a new
   * id with one entry, appended to the insertion order with `n.token` as its
   * first token.  Every other entry and first token is kept.
   */
  function Enter(g: Grouping, n: FragmentName, file: string): (r: Grouping)
    ensures r.tiles.Keys == g.tiles.Keys + {n.id}
    ensures n.token in r.tiles[n.id] && r.tiles[n.id][n.token] == file
    ensures forall id, t | id in g.tiles && t in g.tiles[id] && (id, t) != (n.id, n.token) ::
      t in r.tiles[id] && r.tiles[id][t] == g.tiles[id][t]
    ensures forall id, t | id in r.tiles && t in r.tiles[id] ::
      (id, t) == (n.id, n.token) || (id in g.tiles && t in g.tiles[id])
    ensures r.order == if n.id in g.tiles then g.order else g.order + [n.id]
    ensures r.first == if n.id in g.tiles then g.first else g.first[n.id := n.token]
  {
    if n.id in g.tiles then g.(tiles := g.tiles[n.id := g.tiles[n.id][n.token := file]])
    else Grouping(g.tiles[n.id := map[n.token := file]], g.order + [n.id], g.first[n.id := n.token])
  }

  /** The dictionary after scanning `listing` in order; it records at most one tile id per name. */
  function Group(listing: seq<string>): (g: Grouping)
    ensures |g.order| <= |listing|
    decreases |listing|
  {
    if |listing| == 0 then NoTiles
    else Insert(Group(listing[..|listing| - 1]), listing[|listing| - 1])
  }

  /** The loop of lines 56-64 over the directory listing. */
  method GroupFragments(listing: seq<string>) returns (g: Grouping)
    ensures g == Group(listing)
  {
    var tiles: map<string, map<string, string>> := map[];
    var order: seq<string> := [];
    var first: map<string, string> := map[];
    for i := 0 to |listing|
      invariant Grouping(tiles, order, first) == Group(listing[..i])
    {
      var file := listing[i];
      assert listing[..i + 1][..i] == listing[..i];
      match ParseFileName(file)
      case Some(n) =>
        if n.id in tiles {
          tiles := tiles[n.id := tiles[n.id][n.token := file]];
        } else {
          tiles := tiles[n.id := map[n.token := file]];
          order := order + [n.id];
          first := first[n.id := n.token];
        }
      case None =>
    }
    assert listing[..|listing|] == listing;
    g := Grouping(tiles, order, first);
  }

  /**
   * The shape of the dictionary: `order` lists each tile id once, the ids
   * that have an entry are exactly those in `order` and in `first`, and the
   * first-recorded token of every id is one of its entries, so no tile has
   * an empty quadrant map.
   */
  ghost predicate WellFormed(g: Grouping)
  {
    && (forall i, j | 0 <= i < j < |g.order| :: g.order[i] != g.order[j])
    && (forall id :: id in g.tiles <==> id in g.order)
    && g.first.Keys == g.tiles.Keys
    && (forall id | id in g.tiles :: g.first[id] in g.tiles[id])
  }

  lemma {:induction false} GroupWellFormed(listing: seq<string>)
    ensures WellFormed(Group(listing))
    decreases |listing|
  {
    if |listing| > 0 {
      GroupWellFormed(listing[..|listing| - 1]);
      InsertWellFormed(Group(listing[..|listing| - 1]), listing[|listing| - 1]);
    }
  }

  /**
   * The scan records no tile id at all exactly when no listed name matches
   * the pattern; then the dictionary is empty too.
   */
  lemma GroupEmpty(listing: seq<string>)
    ensures Group(listing).order == [] <==> forall i | 0 <= i < |listing| :: ParseFileName(listing[i]).None?
    ensures Group(listing).order == [] <==> Group(listing).tiles == map[]
  {
    GroupWellFormed(listing);
    if i :| 0 <= i < |listing| && ParseFileName(listing[i]).Some? {
      GroupFilesEveryMatch(listing, i);
    } else {
      NoMatchNoTiles(listing);
    }
  }

  lemma {:induction false} NoMatchNoTiles(listing: seq<string>)
    requires forall i | 0 <= i < |listing| :: ParseFileName(listing[i]).None?
    ensures Group(listing) == NoTiles
    decreases |listing|
  {
    if |listing| > 0 {
      var init := listing[..|listing| - 1];
      assert forall i | 0 <= i < |init| :: init[i] == listing[i];
      NoMatchNoTiles(init);
    }
  }

  /** Filing one name keeps the dictionary well formed. */
  lemma InsertWellFormed(g: Grouping, file: string)
    requires WellFormed(g)
    ensures WellFormed(Insert(g, file))
  {
    match ParseFileName(file)
    case None =>
    case Some(n) => EnterWellFormed(g, n, file);
  }

  lemma EnterWellFormed(g: Grouping, n: FragmentName, file: string)
    requires WellFormed(g)
    ensures WellFormed(Enter(g, n, file))
  {
    if n.id in g.tiles {
      EnterKnownWellFormed(g, n, file);
    } else {
      EnterNewWellFormed(g, n, file);
    }
  }

  lemma EnterKnownWellFormed(g: Grouping, n: FragmentName, file: string)
    requires WellFormed(g) && n.id in g.tiles
    ensures WellFormed(Enter(g, n, file))
  {
    var r := Enter(g, n, file);
    assert r.order == g.order && r.first == g.first && r.tiles.Keys == g.tiles.Keys;
    forall id | id in r.tiles
      ensures r.first[id] in r.tiles[id]
    {
      assert g.first[id] in g.tiles[id];
    }
  }

  lemma EnterNewWellFormed(g: Grouping, n: FragmentName, file: string)
    requires WellFormed(g) && n.id !in g.tiles
    ensures WellFormed(Enter(g, n, file))
  {
    var r := Enter(g, n, file);
    assert r.order == g.order + [n.id];
    assert forall i | 0 <= i < |g.order| :: r.order[i] == g.order[i];
    forall id | id in r.tiles
      ensures r.first[id] in r.tiles[id]
    {
      if id != n.id {
        assert g.first[id] in g.tiles[id];
      }
    }
  }

  /** Index `k` holds the last name in `listing` filed under `n`. */
  ghost predicate LastFiledAt(listing: seq<string>, k: int, n: FragmentName)
  {
    0 <= k < |listing| && ParseFileName(listing[k]) == Some(n) &&
    forall j | k < j < |listing| :: ParseFileName(listing[j]) != Some(n)
  }

  /** Every matching name is filed under its tile id and token. */
  lemma {:induction false} GroupFilesEveryMatch(listing: seq<string>, i: int)
    requires 0 <= i < |listing| && ParseFileName(listing[i]).Some?
    ensures var g := Group(listing); var n := ParseFileName(listing[i]).value;
      n.id in g.tiles && n.token in g.tiles[n.id]
    decreases |listing|
  {
    var m := |listing| - 1;
    var init := listing[..m];
    var n := ParseFileName(listing[i]).value;
    if i < m {
      assert listing[i] == init[i];
      GroupFilesEveryMatch(init, i);
      InsertKeepsEntries(Group(init), listing[m], n.id, n.token);
    } else {
      InsertFiles(Group(init), listing[m]);
    }
  }

  /** Filing a name keeps every entry already filed. */
  lemma InsertKeepsEntries(g: Grouping, file: string, id: string, tok: string)
    requires id in g.tiles && tok in g.tiles[id]
    ensures id in Insert(g, file).tiles && tok in Insert(g, file).tiles[id]
  {
  }

  /** Filing a matching name makes an entry under its tile id and token. */
  lemma InsertFiles(g: Grouping, file: string)
    requires ParseFileName(file).Some?
    ensures var n := ParseFileName(file).value;
      n.id in Insert(g, file).tiles && n.token in Insert(g, file).tiles[n.id]
  {
  }

  /** The entry under each tile id and token is the last listed name with that id and token. */
  lemma {:induction false} GroupKeepsLast(listing: seq<string>, id: string, tok: string)
    requires id in Group(listing).tiles && tok in Group(listing).tiles[id]
    ensures exists k :: LastFiledAt(listing, k, FragmentName(id, tok)) && listing[k] == Group(listing).tiles[id][tok]
    decreases |listing|
  {
    var m := |listing| - 1;
    var init := listing[..m];
    var f := listing[m];
    var n := FragmentName(id, tok);
    if ParseFileName(f) == Some(n) {
      assert LastFiledAt(listing, m, n);
    } else {
      var g0 := Group(init);
      assert id in g0.tiles && tok in g0.tiles[id] && Group(listing).tiles[id][tok] == g0.tiles[id][tok];
      GroupKeepsLast(init, id, tok);
      var k :| LastFiledAt(init, k, n) && init[k] == g0.tiles[id][tok];
      LastFiledExtends(listing, k, n);
    }
  }

  /** A name that is last under `n` stays last when a name not filed under `n` is appended. */
  lemma LastFiledExtends(listing: seq<string>, k: int, n: FragmentName)
    requires |listing| > 0 && LastFiledAt(listing[..|listing| - 1], k, n)
    requires ParseFileName(listing[|listing| - 1]) != Some(n)
    ensures LastFiledAt(listing, k, n) && listing[k] == listing[..|listing| - 1][k]
  {
    var init := listing[..|listing| - 1];
    forall j | k < j < |listing|
      ensures ParseFileName(listing[j]) != Some(n)
    {
      if j < |listing| - 1 {
        assert listing[j] == init[j];
        assert ParseFileName(listing[j]) == ParseFileName(init[j]);
      } else {
        assert listing[j] == listing[|listing| - 1];
      }
    }
  }

  /** Index `k` holds the first name in `listing` with tile id `id`, and its token is `tok`. */
  ghost predicate FirstFiledAt(listing: seq<string>, k: int, id: string, tok: string)
  {
    0 <= k < |listing| && ParseFileName(listing[k]) == Some(FragmentName(id, tok)) &&
    forall j | 0 <= j < k :: ParseFileName(listing[j]).None? || ParseFileName(listing[j]).value.id != id
  }

  /** The first-recorded token of each tile id is that of the first listed name with that id. */
  lemma {:induction false} GroupFirstToken(listing: seq<string>, id: string)
    requires id in Group(listing).first
    ensures exists k :: FirstFiledAt(listing, k, id, Group(listing).first[id])
    decreases |listing|
  {
    var m := |listing| - 1;
    var init := listing[..m];
    var g0 := Group(init);
    var g := Group(listing);
    GroupWellFormed(init);
    if id in g0.first {
      assert g.first[id] == g0.first[id];
      GroupFirstToken(init, id);
      var k :| FirstFiledAt(init, k, id, g0.first[id]);
      FirstFiledExtends(listing, k, id, g0.first[id]);
    } else {
      assert ParseFileName(listing[m]) == Some(FragmentName(id, g.first[id]));
      NewIdFirstFiled(listing, id, g.first[id]);
    }
  }

  /** Appending a name keeps the first name with a tile id where it is. */
  lemma FirstFiledExtends(listing: seq<string>, k: int, id: string, tok: string)
    requires |listing| > 0 && FirstFiledAt(listing[..|listing| - 1], k, id, tok)
    ensures FirstFiledAt(listing, k, id, tok)
  {
    assert forall j | 0 <= j <= k :: listing[j] == listing[..|listing| - 1][j];
  }

  /** A tile id the scan of all but the last name did not file is first filed by the last name. */
  lemma NewIdFirstFiled(listing: seq<string>, id: string, tok: string)
    requires |listing| > 0 && id !in Group(listing[..|listing| - 1]).tiles
    requires ParseFileName(listing[|listing| - 1]) == Some(FragmentName(id, tok))
    ensures FirstFiledAt(listing, |listing| - 1, id, tok)
  {
    var m := |listing| - 1;
    var init := listing[..m];
    forall j | 0 <= j < m
      ensures ParseFileName(listing[j]).None? || ParseFileName(listing[j]).value.id != id
    {
      assert listing[j] == init[j];
      if ParseFileName(init[j]).Some? {
        GroupFilesEveryMatch(init, j);
      }
    }
  }

  /** Names the pattern does not match leave the dictionary unchanged, wherever they are listed. */
  lemma {:induction false} GroupSkipsNonMatching(a: seq<string>, f: string, b: seq<string>)
    requires ParseFileName(f).None?
    ensures Group(a + [f] + b) == Group(a + b)
    decreases |b|
  {
    if |b| == 0 {
      assert a + [f] + b == (a + [f]) && a + b == a;
      GroupSnoc(a, f);
    } else {
      var b0, l := b[..|b| - 1], b[|b| - 1];
      assert a + [f] + b == (a + [f] + b0) + [l];
      assert a + b == (a + b0) + [l];
      GroupSkipsNonMatching(a, f, b0);
      GroupSnoc(a + [f] + b0, l);
      GroupSnoc(a + b0, l);
    }
  }

  /** Scanning one more name files it on top of the scan so far. */
  lemma GroupSnoc(a: seq<string>, f: string)
    ensures Group(a + [f]) == Insert(Group(a), f)
  {
    assert (a + [f])[..|a|] == a;
  }
}
