/**
 * The PHP string functions the plugins call, over Dafny strings:
 * `strpos`, `explode`/`implode`, `array_filter`, `ltrim`/`rtrim`, and the
 * ASCII case-insensitive `stripos`/`stristr`/`str_ireplace` of PHP 8.2+.
 */
module PhpStrings {
  import opened PhpCore

  /** `sub` occurs in `s` starting at index `j`. */
  predicate OccursAt(s: string, sub: string, j: int) {
    0 <= j && j + |sub| <= |s| && s[j..j + |sub|] == sub
  }

  /** `strpos($s, $sub) !== false`, scanning from the left. */
  function Contains(s: string, sub: string): (b: bool)
    ensures b <==> exists j :: OccursAt(s, sub, j)
    decreases |s|
  {
    if |sub| <= |s| && s[..|sub|] == sub then
      assert OccursAt(s, sub, 0);
      true
    else if |s| == 0 then
      false
    else
      var b' := Contains(s[1..], sub);
      assert forall j :: OccursAt(s[1..], sub, j) ==> OccursAt(s, sub, j + 1) by {
        forall j | OccursAt(s[1..], sub, j) ensures OccursAt(s, sub, j + 1) {
          assert s[1..][j..j + |sub|] == s[j + 1..j + 1 + |sub|];
        }
      }
      assert !OccursAt(s, sub, 0) by {
        if |sub| <= |s| {
          assert s[..|sub|] == s[0..|sub|];
        }
      }
      assert forall j :: OccursAt(s, sub, j) ==> OccursAt(s[1..], sub, j - 1) by {
        forall j | OccursAt(s, sub, j) ensures OccursAt(s[1..], sub, j - 1) {
          assert j != 0;
          assert s[1..][j - 1..j - 1 + |sub|] == s[j..j + |sub|];
        }
      }
      b'
  }

  /** A one-character needle is found exactly when the character occurs. */
  lemma ContainsChar(s: string, c: char)
    ensures Contains(s, [c]) <==> c in s
  {
    if c in s {
      var j :| 0 <= j < |s| && s[j] == c;
      assert OccursAt(s, [c], j);
    }
    if Contains(s, [c]) {
      var j :| OccursAt(s, [c], j);
      assert s[j..j + 1][0] == s[j];
    }
  }

  /** `implode($sep, $parts)`. */
  function Implode(sep: string, parts: seq<string>): string {
    if |parts| == 0 then ""
    else if |parts| == 1 then parts[0]
    else parts[0] + sep + Implode(sep, parts[1..])
  }

  /**
   * `explode($sep, $s)`: the pieces between the occurrences of `sep`,
   * found left to right without overlap. Never empty; `explode` of the
   * empty string is `[""]`. PHP refuses an empty separator, and every
   * caller passes a literal one.
   */
  function Explode(sep: string, s: string): (parts: seq<string>)
    requires sep != ""
    ensures |parts| >= 1
    decreases |s|
  {
    if |s| < |sep| then [s]
    else if s[..|sep|] == sep then [""] + Explode(sep, s[|sep|..])
    else
      var rest := Explode(sep, s[1..]);
      [[s[0]] + rest[0]] + rest[1..]
  }

  /** Gluing the pieces back together gives the original string. */
  lemma {:induction false} ImplodeExplode(sep: string, s: string)
    requires sep != ""
    ensures Implode(sep, Explode(sep, s)) == s
    decreases |s|
  {
    if |s| < |sep| {
    } else if s[..|sep|] == sep {
      var rest := Explode(sep, s[|sep|..]);
      ImplodeExplode(sep, s[|sep|..]);
      assert ([""] + rest)[1..] == rest;
      assert Implode(sep, [""] + rest) == "" + sep + Implode(sep, rest);
      assert s == sep + s[|sep|..];
    } else {
      var rest := Explode(sep, s[1..]);
      ImplodeExplode(sep, s[1..]);
      ImplodeConsHead(sep, s[0], rest);
      assert s == [s[0]] + s[1..];
    }
  }

  /** A character glued to the first piece comes first in the glued string. */
  lemma ImplodeConsHead(sep: string, c: char, parts: seq<string>)
    requires |parts| >= 1
    ensures Implode(sep, [[c] + parts[0]] + parts[1..]) == [c] + Implode(sep, parts)
  {
    var glued := [[c] + parts[0]] + parts[1..];
    if |parts| > 1 {
      assert glued[1..] == parts[1..];
      assert Implode(sep, glued) == [c] + parts[0] + sep + Implode(sep, parts[1..]);
    }
  }

  /**
   * No occurrence of `sep` begins inside `p` when `p` is followed by `sep`:
   * `p` neither contains the separator nor ends with a proper prefix of it
   * that the separator completes.
   */
  predicate SepFree(sep: string, p: string) {
    forall j | 0 <= j < |p| :: !OccursAt(p + sep, sep, j)
  }

  lemma SepFreeTail(sep: string, p: string)
    requires |p| > 0 && SepFree(sep, p)
    ensures SepFree(sep, p[1..])
  {
    assert p[1..] + sep == (p + sep)[1..];
    forall j | 0 <= j < |p[1..]| ensures !OccursAt(p[1..] + sep, sep, j) {
      assert !OccursAt(p + sep, sep, j + 1);
      assert (p[1..] + sep)[j..j + |sep|] == (p + sep)[j + 1..j + 1 + |sep|];
    }
  }

  lemma {:induction false} ExplodeSepFreeLast(sep: string, p: string)
    requires sep != "" && SepFree(sep, p)
    ensures Explode(sep, p) == [p]
    decreases |p|
  {
    if |p| >= |sep| {
      assert !OccursAt(p + sep, sep, 0);
      assert p[..|sep|] == (p + sep)[0..|sep|];
      SepFreeTail(sep, p);
      ExplodeSepFreeLast(sep, p[1..]);
      assert [p[0]] + p[1..] == p;
    }
  }

  lemma {:induction false} ExplodeSepFreeFirst(sep: string, p: string, rest: string)
    requires sep != "" && SepFree(sep, p)
    ensures Explode(sep, p + sep + rest) == [p] + Explode(sep, rest)
    decreases |p|
  {
    var s := p + sep + rest;
    if p == [] {
      assert s == sep + rest;
      assert s[..|sep|] == sep && s[|sep|..] == rest;
    } else {
      assert !OccursAt(p + sep, sep, 0);
      assert s[..|sep|] == (p + sep)[0..|sep|];
      assert s[1..] == p[1..] + sep + rest;
      SepFreeTail(sep, p);
      ExplodeSepFreeFirst(sep, p[1..], rest);
      assert [p[0]] + p[1..] == p;
    }
  }

  /** Splitting a glued list gives the list back, when no piece can hide a separator. */
  lemma {:induction false} ExplodeImplode(sep: string, parts: seq<string>)
    requires sep != "" && |parts| >= 1
    requires forall i | 0 <= i < |parts| :: SepFree(sep, parts[i])
    ensures Explode(sep, Implode(sep, parts)) == parts
    decreases |parts|
  {
    if |parts| == 1 {
      ExplodeSepFreeLast(sep, parts[0]);
    } else {
      ExplodeImplode(sep, parts[1..]);
      ExplodeSepFreeFirst(sep, parts[0], Implode(sep, parts[1..]));
      assert parts == [parts[0]] + parts[1..];
    }
  }

  /** No proper prefix of `sep` is also a suffix of it. */
  predicate Unbordered(sep: string) {
    forall k | 0 < k < |sep| :: sep[..k] != sep[|sep| - k..]
  }

  /** For a separator without borders, not containing it is enough. */
  lemma UnborderedSepFree(sep: string, p: string)
    requires sep != "" && Unbordered(sep) && !Contains(p, sep)
    ensures SepFree(sep, p)
  {
    forall j | 0 <= j < |p| ensures !OccursAt(p + sep, sep, j) {
      if j + |sep| <= |p| {
        assert (p + sep)[j..j + |sep|] == p[j..j + |sep|];
        assert !OccursAt(p, sep, j);
      } else {
        var k := |p| - j;
        var w := (p + sep)[j..j + |sep|];
        assert w[k..] == sep[..|sep| - k];
        assert sep[..|sep| - k] != sep[|sep| - (|sep| - k)..];
        assert w[k..] != sep[k..];
      }
    }
  }

  /**
   * A piece cannot hide a separator when it lacks the separator's `k`-th
   * character and that character does not occur earlier in the separator.
   */
  lemma CharFreeSepFree(sep: string, p: string, k: nat)
    requires k < |sep| && sep[k] !in p
    requires forall i | 0 <= i < k :: sep[i] != sep[k]
    ensures SepFree(sep, p)
  {
    forall j | 0 <= j < |p| ensures !OccursAt(p + sep, sep, j) {
      var w := (p + sep)[j..j + |sep|];
      if j + k < |p| {
        assert w[k] == p[j + k];
      } else {
        assert w[k] == sep[j + k - |p|];
      }
    }
  }

  /** `array_filter` without a callback: the truthy items, in their order. */
  function KeepTruthy(items: seq<string>): seq<string> {
    if items == [] then []
    else (if Truthy(items[0]) then [items[0]] else []) + KeepTruthy(items[1..])
  }

  /** What `array_filter` keeps: only truthy items, every truthy item, and nothing new; the first stays first. */
  lemma {:induction false} KeepTruthySpec(items: seq<string>)
    ensures var kept := KeepTruthy(items);
      && (forall i | 0 <= i < |kept| :: Truthy(kept[i]))
      && (forall i | 0 <= i < |items| :: Truthy(items[i]) ==> items[i] in kept)
      && (forall x | x in kept :: x in items)
      && ((forall i | 0 <= i < |items| :: Truthy(items[i])) ==> kept == items)
      && (|items| > 0 && Truthy(items[0]) ==> |kept| > 0 && kept[0] == items[0])
      && (|items| == 1 ==> kept == if Truthy(items[0]) then items else [])
    decreases |items|
  {
    if items != [] {
      var tail := items[1..];
      KeepTruthySpec(tail);
      var head := if Truthy(items[0]) then [items[0]] else [];
      var kept := KeepTruthy(items);
      assert kept == head + KeepTruthy(tail);
      forall i | 0 <= i < |items| && Truthy(items[i]) ensures items[i] in kept {
        if i > 0 {
          assert items[i] == tail[i - 1];
        }
      }
      forall x | x in kept ensures x in items {
        if x !in head {
          assert x in KeepTruthy(tail);
        }
      }
      if forall i | 0 <= i < |items| :: Truthy(items[i]) {
        assert forall i | 0 <= i < |tail| :: Truthy(tail[i]) by {
          forall i | 0 <= i < |tail| ensures Truthy(tail[i]) {
            assert tail[i] == items[i + 1];
          }
        }
        assert items == [items[0]] + tail;
      }
    }
  }

  /**
   * `array_filter` works item by item: filtering a concatenation filters each
   * part, so the kept items keep their order and their repetitions.
   */
  lemma {:induction false} KeepTruthyAppend(a: seq<string>, b: seq<string>)
    ensures KeepTruthy(a + b) == KeepTruthy(a) + KeepTruthy(b)
    decreases |a|
  {
    if a == [] {
      assert a + b == b;
    } else {
      assert (a + b)[0] == a[0];
      assert (a + b)[1..] == a[1..] + b;
      KeepTruthyAppend(a[1..], b);
    }
  }

  /** `ltrim($s, $c)` for a single character. */
  function LTrim(s: string, c: char): (r: string)
    ensures |r| <= |s| && r == s[|s| - |r|..]
    ensures forall i | 0 <= i < |s| - |r| :: s[i] == c
    ensures r == [] || r[0] != c
    decreases |s|
  {
    if |s| > 0 && s[0] == c then LTrim(s[1..], c) else s
  }

  /** `rtrim($s, $c)` for a single character. */
  function RTrim(s: string, c: char): (r: string)
    ensures |r| <= |s| && r == s[..|r|]
    ensures forall i | |r| <= i < |s| :: s[i] == c
    ensures r == [] || r[|r| - 1] != c
    decreases |s|
  {
    if |s| > 0 && s[|s| - 1] == c then RTrim(s[..|s| - 1], c) else s
  }

  /** ASCII case folding, as PHP 8.2+ does for its case-insensitive functions. */
  function Lower(c: char): char {
    if 'A' <= c <= 'Z' then (c as int + 32) as char else c
  }

  predicate IEqual(a: string, b: string) {
    |a| == |b| && forall i | 0 <= i < |a| :: Lower(a[i]) == Lower(b[i])
  }

  predicate IStartsWith(s: string, x: string) {
    |x| <= |s| && IEqual(s[..|x|], x)
  }

  /** `stripos($s, $x) !== false`, equivalently `stristr($s, $x) !== false`. */
  predicate IContains(s: string, x: string)
    decreases |s|
  {
    IStartsWith(s, x) || (|s| > 0 && IContains(s[1..], x))
  }

  /**
   * `str_ireplace($x, $r, $s)`: each case-insensitive occurrence of `x`,
   * found left to right without overlap, becomes `r`. An empty `x` changes nothing.
   */
  function IReplace(s: string, x: string, r: string): (t: string)
    ensures !IContains(s, x) ==> t == s
    decreases |s|
  {
    if x == "" || |s| < |x| then s
    else if IStartsWith(s, x) then r + IReplace(s[|x|..], x, r)
    else [s[0]] + IReplace(s[1..], x, r)
  }

  /** No character of `p` is, ignoring case, the first character of `x`. */
  predicate INoStart(p: string, x: string)
    requires x != ""
  {
    forall i | 0 <= i < |p| :: Lower(p[i]) != Lower(x[0])
  }

  /** A stretch in which no occurrence can begin is copied unchanged. */
  lemma {:induction false} IReplaceSkips(p: string, rest: string, x: string, r: string)
    requires x != "" && INoStart(p, x)
    ensures IReplace(p + rest, x, r) == p + IReplace(rest, x, r)
    decreases |p|
  {
    var s := p + rest;
    if p == [] {
      assert s == rest;
    } else if |s| < |x| {
      assert IReplace(rest, x, r) == rest;
    } else {
      assert s[..|x|][0] == p[0];
      assert !IStartsWith(s, x);
      assert s[1..] == p[1..] + rest;
      IReplaceSkips(p[1..], rest, x, r);
    }
  }

  /** A case variant of `x` at the front is replaced. */
  lemma IReplaceMatch(y: string, rest: string, x: string, r: string)
    requires x != "" && IEqual(y, x)
    ensures IReplace(y + rest, x, r) == r + IReplace(rest, x, r)
  {
    var s := y + rest;
    assert s[..|x|] == y;
    assert s[|x|..] == rest;
  }

  /**
   * `str_ireplace` replaces every occurrence: pieces glued by a case variant
   * of `x` come out glued by `r`, when no piece holds the first character
   * of `x` in either case (so no other occurrence can start).
   */
  lemma {:induction false} IReplaceAll(pieces: seq<string>, y: string, x: string, r: string)
    requires x != "" && IEqual(y, x)
    requires forall i | 0 <= i < |pieces| :: INoStart(pieces[i], x)
    ensures IReplace(Implode(y, pieces), x, r) == Implode(r, pieces)
    decreases |pieces|
  {
    if |pieces| == 1 {
      IReplaceSkips(pieces[0], "", x, r);
      assert pieces[0] + "" == pieces[0];
    } else if |pieces| > 1 {
      var tail := Implode(y, pieces[1..]);
      assert Implode(y, pieces) == pieces[0] + (y + tail);
      IReplaceSkips(pieces[0], y + tail, x, r);
      IReplaceMatch(y, tail, x, r);
      IReplaceAll(pieces[1..], y, x, r);
      assert Implode(r, pieces) == pieces[0] + (r + Implode(r, pieces[1..]));
    }
  }

  /** What `addslashes` puts in place of one character. */
  function SlashChar(c: char): string {
    if c == '\'' || c == '"' || c == '\\' then ['\\', c]
    else if c == '\0' then ['\\', '0']
    else [c]
  }

  /** `addslashes`, which `wp_slash` applies: quotes and backslashes escaped, NUL written as a backslash and '0'. */
  function Slash(s: string): string
    decreases |s|
  {
    if s == [] then [] else SlashChar(s[0]) + Slash(s[1..])
  }

  /**
   * `stripslashes`, which `wp_unslash` applies: a backslash is dropped and
   * the character after it kept, except that a backslash and '0' give NUL;
   * a backslash at the very end is dropped.
   */
  function Unslash(s: string): string
    decreases |s|
  {
    if s == [] then []
    else if s[0] != '\\' then [s[0]] + Unslash(s[1..])
    else if |s| == 1 then []
    else [if s[1] == '0' then '\0' else s[1]] + Unslash(s[2..])
  }

  /** Unslashing undoes slashing. */
  lemma {:induction false} UnslashSlash(s: string)
    ensures Unslash(Slash(s)) == s
    decreases |s|
  {
    if s != [] {
      var rest := Slash(s[1..]);
      var t := SlashChar(s[0]) + rest;
      UnslashSlash(s[1..]);
      if |SlashChar(s[0])| == 2 {
        assert t[0] == '\\' && t[1] == SlashChar(s[0])[1] && t[2..] == rest;
      } else {
        assert t[0] != '\\' && t[1..] == rest;
      }
      assert s == [s[0]] + s[1..];
    }
  }

  /** A string without backslashes survives unslashing. */
  lemma {:induction false} UnslashPlain(s: string)
    requires '\\' !in s
    ensures Unslash(s) == s
    decreases |s|
  {
    if s != [] {
      assert '\\' !in s[1..];
      UnslashPlain(s[1..]);
      assert s == [s[0]] + s[1..];
    }
  }

  /** `strcmp($a, $b) < 0`: `a` sorts before `b` character by character, a proper prefix first. */
  predicate LexLess(a: string, b: string) {
    if a == [] || b == [] then a == [] && b != []
    else if a[0] != b[0] then a[0] < b[0]
    else LexLess(a[1..], b[1..])
  }
}
