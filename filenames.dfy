/**
 * Recognising fragment file names, as `stitch_em_up.py` does with
 * `re.compile(r'm_(\d+)_(\w+)_(\d+)_(\w+)_(\d+)_(\d+).png').match(name)`.
 *
 * The match is anchored at the start of the name only.  `\w` also matches
 * `_` and digits, and the engine backtracks, so the second group (the
 * quadrant token) is the LONGEST word run after the id whose remainder still
 * matches the rest of the pattern.
 */
module FileNames {
  import opened Wrappers

  predicate IsDigit(c: char) { '0' <= c <= '9' }

  /** `\w` restricted to ASCII. */
  predicate IsWordChar(c: char) { IsDigit(c) || 'a' <= c <= 'z' || 'A' <= c <= 'Z' || c == '_' }

  datatype CharClass = Digit | Word

  predicate InClass(k: CharClass, c: char)
  {
    match k
    case Digit => IsDigit(c)
    case Word => IsWordChar(c)
  }

  predicate AllIn(k: CharClass, s: string)
  {
    forall i | 0 <= i < |s| :: InClass(k, s[i])
  }

  /** One element of a regular expression: a literal, `.`, or `\d+` / `\w+`. */
  datatype Atom = Lit(c: char) | AnyChar | Plus(k: CharClass)

  /** Whether pattern `p` matches some prefix of `s` (the pattern is anchored at the start only). */
  predicate Matches(p: seq<Atom>, s: string)
    ensures Matches(p, s) ==> |p| <= |s|
    decreases |s|, |p|
  {
    if |p| == 0 then true
    else if |s| == 0 then false
    else match p[0]
      case Lit(c) => s[0] == c && Matches(p[1..], s[1..])
      case AnyChar => s[0] != '\n' && Matches(p[1..], s[1..])
      case Plus(k) => InClass(k, s[0]) && (Matches(p, s[1..]) || Matches(p[1..], s[1..]))
  }

  /** The pattern after the quadrant token: `_(\d+)_(\w+)_(\d+)_(\d+).png`. */
  const Tail: seq<Atom> := [Lit('_'), Plus(Digit), Lit('_'), Plus(Word), Lit('_'), Plus(Digit),
                            Lit('_'), Plus(Digit), AnyChar, Lit('p'), Lit('n'), Lit('g')]

  /** The length of the longest prefix of `s` in class `k`. */
  function Run(k: CharClass, s: string): (n: nat)
    ensures n <= |s| && AllIn(k, s[..n])
    ensures n < |s| ==> !InClass(k, s[n])
    decreases |s|
  {
    if |s| == 0 || !InClass(k, s[0]) then 0 else 1 + Run(k, s[1..])
  }

  /** The largest `n` in 1..k for which `s[n..]` matches `Tail`: the greedy choice of `\w+`. */
  function LongestToken(s: string, k: nat): (r: Option<nat>)
    requires k <= |s|
    ensures r.Some? ==> 1 <= r.value <= k && Matches(Tail, s[r.value..])
    ensures forall n | (if r.Some? then r.value else 0) < n <= k :: !Matches(Tail, s[n..])
    decreases k
  {
    if k == 0 then None
    else if Matches(Tail, s[k..]) then Some(k)
    else LongestToken(s, k - 1)
  }

  /** The two groups the program uses: the tile id and the quadrant token. */
  datatype FragmentName = FragmentName(id: string, token: string)

  /**
   * `filename_expr.match(name)`, giving groups 1 and 2.  Group 1 is the whole
   * digit run after `m_`, since a digit can never stand for the `_` after it.
   * A match needs the name to start with `m_`, and the two groups are a
   * non-empty digit run and a non-empty word run.
   */
  function ParseFileName(name: string): (r: Option<FragmentName>)
    ensures r.Some? ==> |name| >= 2 && name[0] == 'm' && name[1] == '_'
    ensures r.Some? ==> |r.value.id| > 0 && AllIn(Digit, r.value.id)
    ensures r.Some? ==> |r.value.token| > 0 && AllIn(Word, r.value.token)
  {
    if |name| < 2 || name[0] != 'm' || name[1] != '_' then None
    else
      var rest := name[2..];
      var d := Run(Digit, rest);
      if d == 0 || d == |rest| || rest[d] != '_' then None
      else
        var after := rest[d + 1..];
        var w := Run(Word, after);
        match LongestToken(after, w)
        case None => None
        case Some(k) =>
          PrefixInClass(Word, after, k, w);
          Some(FragmentName(rest[..d], after[..k]))
  }

  /**
   * The name starts with `m_`, the digit run `n.id`, `_` and the word run
   * `n.token`, and the rest of the name matches the tail of the pattern.
   */
  ghost predicate HasShape(name: string, n: FragmentName)
  {
    var prefix := "m_" + n.id + "_" + n.token;
    |n.id| > 0 && AllIn(Digit, n.id) && |n.token| > 0 && AllIn(Word, n.token) &&
    |prefix| <= |name| && name[..|prefix|] == prefix && Matches(Tail, name[|prefix|..])
  }

  /** What a match guarantees about the name and the two groups. */
  lemma ParseFileNameSound(name: string)
    requires ParseFileName(name).Some?
    ensures HasShape(name, ParseFileName(name).value)
  {
    var rest := name[2..];
    var d := Run(Digit, rest);
    var after := rest[d + 1..];
    var w := Run(Word, after);
    var k := LongestToken(after, w).value;
    PrefixInClass(Word, after, k, w);
    Reassemble(name, d, k);
  }

  lemma PrefixInClass(c: CharClass, s: string, k: nat, w: nat)
    requires k <= w <= |s| && AllIn(c, s[..w])
    ensures AllIn(c, s[..k])
  {
    assert forall i | 0 <= i < k :: s[..k][i] == s[..w][i];
  }

  /** Cutting `m_`, the id, `_` and the token off a name and joining them again. */
  lemma Reassemble(name: string, d: nat, k: nat)
    requires 2 + d < |name| && name[0] == 'm' && name[1] == '_' && name[2 + d] == '_'
    requires k <= |name| - 3 - d
    ensures var prefix := "m_" + name[2..][..d] + "_" + name[2..][d + 1..][..k];
      |prefix| <= |name| && name[..|prefix|] == prefix && name[|prefix|..] == name[2..][d + 1..][k..]
  {
    var rest := name[2..];
    var after := rest[d + 1..];
    var prefix := "m_" + rest[..d] + "_" + after[..k];
    assert |prefix| == 3 + d + k;
    assert forall i | 0 <= i < |prefix| :: prefix[i] == name[i];
    assert name[..|prefix|] == prefix;
    assert name[|prefix|..] == after[k..];
  }

  /** A run of class `k` that is followed by a character outside `k` (or by nothing) is the whole run. */
  lemma {:induction false} RunIs(k: CharClass, t: string, s: string)
    requires AllIn(k, t)
    requires |s| > 0 ==> !InClass(k, s[0])
    ensures Run(k, t + s) == |t|
    decreases |t|
  {
    if |t| > 0 {
      var ts := t + s;
      assert ts[0] == t[0] && InClass(k, t[0]);
      assert ts[1..] == t[1..] + s;
      assert AllIn(k, t[1..]) by {
        assert forall i | 0 <= i < |t| - 1 :: t[1..][i] == t[i + 1];
      }
      RunIs(k, t[1..], s);
    } else {
      assert t + s == s;
    }
  }

  /** A run is at least as long as any prefix in its class. */
  lemma {:induction false} RunAtLeast(k: CharClass, s: string, n: nat)
    requires n <= |s| && AllIn(k, s[..n])
    ensures Run(k, s) >= n
    decreases n
  {
    if n > 0 {
      assert InClass(k, s[..n][0]);
      assert s[1..][..n - 1] == s[..n][1..];
      RunAtLeast(k, s[1..], n - 1);
    }
  }

  /**
   * Whenever a name splits as `m_` + digits + `_` + word characters + a
   * remainder that matches the tail of the pattern, the regex matches: group 1
   * is those digits, and group 2 is at least as long as the chosen word part.
   */
  lemma ParseComplete(name: string, id: string, tok: string, rest: string)
    requires |id| > 0 && AllIn(Digit, id) && |tok| > 0 && AllIn(Word, tok)
    requires name == "m_" + id + "_" + tok + rest && Matches(Tail, rest)
    ensures ParseFileName(name).Some?
    ensures ParseFileName(name).value.id == id
    ensures |ParseFileName(name).value.token| >= |tok|
  {
    NameParts(name, id, tok, rest);
    TokenFits(tok, rest);
  }

  /** The pieces `ParseFileName` cuts a name of the form `m_` + id + `_` + tok + rest into. */
  lemma NameParts(name: string, id: string, tok: string, rest: string)
    requires |id| > 0 && AllIn(Digit, id) && |tok| > 0 && AllIn(Word, tok)
    requires name == "m_" + id + "_" + tok + rest
    ensures |name| >= 2 && name[0] == 'm' && name[1] == '_'
    ensures Run(Digit, name[2..]) == |id| < |name[2..]| && name[2..][|id|] == '_'
    ensures name[2..][..|id|] == id && name[2..][|id| + 1..] == tok + rest
  {
    var r := name[2..];
    assert r == id + ("_" + tok + rest);
    RunIs(Digit, id, "_" + tok + rest);
    assert r[|id| + 1..] == tok + rest;
    assert r[..|id|] == id;
  }

  /** The word run at the start of tok + rest covers tok, and cutting tok off leaves rest. */
  lemma TokenFits(tok: string, rest: string)
    requires AllIn(Word, tok)
    ensures Run(Word, tok + rest) >= |tok|
    ensures (tok + rest)[..|tok|] == tok && (tok + rest)[|tok|..] == rest
  {
    var after := tok + rest;
    assert after[..|tok|] == tok;
    RunAtLeast(Word, after, |tok|);
  }

  /**
   * When no longer word part leaves a remainder the tail matches, group 2 is
   * exactly the chosen word part.
   */
  lemma ParseExact(name: string, id: string, tok: string, rest: string)
    requires |id| > 0 && AllIn(Digit, id) && |tok| > 0 && AllIn(Word, tok)
    requires name == "m_" + id + "_" + tok + rest && Matches(Tail, rest)
    requires forall j | |tok| < j <= |tok + rest| :: !Matches(Tail, (tok + rest)[j..])
    ensures ParseFileName(name) == Some(FragmentName(id, tok))
  {
    NameParts(name, id, tok, rest);
    TokenFits(tok, rest);
    var after := tok + rest;
    var k := LongestToken(after, Run(Word, after));
    assert k == Some(|tok|);
  }

  /** The number of `_` characters in a string. */
  function Underscores(s: string): nat
    decreases |s|
  {
    if |s| == 0 then 0 else (if s[0] == '_' then 1 else 0) + Underscores(s[1..])
  }

  /** The number of literal `_` atoms in a pattern. */
  function LiteralUnderscores(p: seq<Atom>): nat
    decreases |p|
  {
    if |p| == 0 then 0 else (if p[0] == Lit('_') then 1 else 0) + LiteralUnderscores(p[1..])
  }

  lemma {:induction false} UnderscoresAppend(a: string, b: string)
    ensures Underscores(a + b) == Underscores(a) + Underscores(b)
    decreases |a|
  {
    if |a| == 0 {
      assert a + b == b;
    } else {
      assert (a + b)[1..] == a[1..] + b;
      UnderscoresAppend(a[1..], b);
    }
  }

  lemma {:induction false} UnderscoresSuffix(s: string, i: nat, j: nat)
    requires i <= j <= |s|
    ensures Underscores(s[j..]) <= Underscores(s[i..])
    decreases j - i
  {
    if i < j {
      assert s[i..][1..] == s[i + 1..];
      UnderscoresSuffix(s, i + 1, j);
    }
  }

  lemma {:induction false} NoUnderscores(s: string)
    requires forall i | 0 <= i < |s| :: s[i] != '_'
    ensures Underscores(s) == 0
    decreases |s|
  {
    if |s| > 0 {
      NoUnderscores(s[1..]);
    }
  }

  /** Every literal `_` of a pattern consumes an `_` of the text it matches. */
  lemma {:induction false} MatchNeedsUnderscores(p: seq<Atom>, s: string)
    requires Matches(p, s)
    ensures Underscores(s) >= LiteralUnderscores(p)
    decreases |s|, |p|
  {
    if |p| > 0 {
      match p[0]
      case Lit(c) => MatchNeedsUnderscores(p[1..], s[1..]);
      case AnyChar => MatchNeedsUnderscores(p[1..], s[1..]);
      case Plus(k) =>
        if Matches(p, s[1..]) {
          MatchNeedsUnderscores(p, s[1..]);
        } else {
          MatchNeedsUnderscores(p[1..], s[1..]);
        }
    }
  }

  /** `\d+` or `\w+` followed by the rest of the pattern matches a run of its class followed by text the rest matches. */
  lemma {:induction false} PlusMatches(p: seq<Atom>, t: string, s: string)
    requires |p| > 0 && p[0].Plus? && |t| > 0 && AllIn(p[0].k, t)
    requires Matches(p[1..], s)
    ensures Matches(p, t + s)
    decreases |t|
  {
    assert (t + s)[1..] == t[1..] + s;
    if |t| > 1 {
      PlusMatches(p, t[1..], s);
    } else {
      assert t[1..] + s == s;
    }
  }

  lemma {:induction false} LitMatches(p: seq<Atom>, c: char, s: string)
    requires |p| > 0 && p[0] == Lit(c) && Matches(p[1..], s)
    ensures Matches(p, [c] + s)
  {
    assert ([c] + s)[1..] == s;
  }

  lemma AnyMatches(p: seq<Atom>, c: char, s: string)
    requires |p| > 0 && p[0] == AnyChar && c != '\n' && Matches(p[1..], s)
    ensures Matches(p, [c] + s)
  {
    assert ([c] + s)[1..] == s;
  }

  /** The text after the token of a canonical name: `_<n1>_<w>_<n2>_<n3>.png`. */
  function CanonicalTail(n1: string, w: string, n2: string, n3: string): string
  {
    "_" + (n1 + ("_" + (w + ("_" + (n2 + ("_" + (n3 + ".png")))))))
  }

  /** The tail of the pattern matches the tail of a canonical name. */
  lemma CanonicalTailMatches(n1: string, w: string, n2: string, n3: string)
    requires |n1| > 0 && AllIn(Digit, n1) && |w| > 0 && AllIn(Word, w)
    requires |n2| > 0 && AllIn(Digit, n2) && |n3| > 0 && AllIn(Digit, n3)
    ensures Matches(Tail, CanonicalTail(n1, w, n2, n3))
  {
    var p := Tail;
    assert Matches(p[12..], "");
    LitMatches(p[11..], 'g', "");
    LitMatches(p[10..], 'n', "g");
    LitMatches(p[9..], 'p', "ng");
    AnyMatches(p[8..], '.', "png");
    var s8 := ".png";
    assert s8 == ['.'] + "png";
    var s7 := n3 + s8;
    PlusMatches(p[7..], n3, s8);
    var s6 := "_" + s7;
    LitMatches(p[6..], '_', s7);
    var s5 := n2 + s6;
    PlusMatches(p[5..], n2, s6);
    var s4 := "_" + s5;
    LitMatches(p[4..], '_', s5);
    var s3 := w + s4;
    PlusMatches(p[3..], w, s4);
    var s2 := "_" + s3;
    LitMatches(p[2..], '_', s3);
    var s1 := n1 + s2;
    PlusMatches(p[1..], n1, s2);
    LitMatches(p, '_', s1);
  }

  /**
   * A name of the documented form `m_<id>_<token>_<n>_<word>_<n>_<n>.png`
   * whose word field holds no `_` is grouped under exactly that id and that
   * token, even when the token itself holds `_`.  (With a `_` in the word
   * field the token can grow: `m_0179012_nw_1_2_3_4_5.png` is grouped under
   * token `nw_1`, this lemma's instance for token `nw_1` and word `3`.)
   */
  lemma CanonicalNameParses(id: string, tok: string, n1: string, w: string, n2: string, n3: string)
    requires |id| > 0 && AllIn(Digit, id)
    requires |tok| > 0 && AllIn(Word, tok)
    requires |n1| > 0 && AllIn(Digit, n1) && |w| > 0 && AllIn(Word, w) && forall i | 0 <= i < |w| :: w[i] != '_'
    requires |n2| > 0 && AllIn(Digit, n2) && |n3| > 0 && AllIn(Digit, n3)
    ensures ParseFileName("m_" + id + "_" + tok + CanonicalTail(n1, w, n2, n3)) == Some(FragmentName(id, tok))
  {
    var tail := CanonicalTail(n1, w, n2, n3);
    var name := "m_" + id + "_" + tok + tail;
    CanonicalTailMatches(n1, w, n2, n3);
    ParseComplete(name, id, tok, tail);
    LongerTokensFail(tok, n1, w, n2, n3);
    ParseExact(name, id, tok, tail);
  }

  /** In a canonical name, no word part longer than the token leaves a remainder the tail matches. */
  lemma LongerTokensFail(tok: string, n1: string, w: string, n2: string, n3: string)
    requires AllIn(Digit, n1) && AllIn(Digit, n2) && AllIn(Digit, n3)
    requires forall i | 0 <= i < |w| :: w[i] != '_'
    ensures forall j | |tok| < j <= |tok + CanonicalTail(n1, w, n2, n3)| ::
      !Matches(Tail, (tok + CanonicalTail(n1, w, n2, n3))[j..])
  {
    var tail := CanonicalTail(n1, w, n2, n3);
    var after := tok + tail;
    assert after[|tok| + 1..] == tail[1..];
    TailUnderscores(n1, w, n2, n3);
    assert LiteralUnderscores(Tail) == 4;
    forall j | |tok| < j <= |after|
      ensures !Matches(Tail, after[j..])
    {
      UnderscoresSuffix(after, |tok| + 1, j);
      if Matches(Tail, after[j..]) {
        MatchNeedsUnderscores(Tail, after[j..]);
      }
    }
  }

  /** After its leading `_`, a canonical tail holds exactly three `_`. */
  lemma TailUnderscores(n1: string, w: string, n2: string, n3: string)
    requires AllIn(Digit, n1) && AllIn(Digit, n2) && AllIn(Digit, n3)
    requires forall i | 0 <= i < |w| :: w[i] != '_'
    ensures Underscores(CanonicalTail(n1, w, n2, n3)[1..]) == 3
  {
    NoUnderscores(n1);
    NoUnderscores(w);
    NoUnderscores(n2);
    NoUnderscores(n3);
    assert Underscores(".png") == 0;
    var s7 := n3 + ".png";
    UnderscoresAppend(n3, ".png");
    var s6 := "_" + s7;
    UnderscoresAppend("_", s7);
    var s5 := n2 + s6;
    UnderscoresAppend(n2, s6);
    var s4 := "_" + s5;
    UnderscoresAppend("_", s5);
    var s3 := w + s4;
    UnderscoresAppend(w, s4);
    var s2 := "_" + s3;
    UnderscoresAppend("_", s3);
    var s1 := n1 + s2;
    UnderscoresAppend(n1, s2);
    assert CanonicalTail(n1, w, n2, n3)[1..] == s1;
  }

}
