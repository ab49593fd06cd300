/**
 * A model of the stateless text helpers of ape_template::utils.
 *
 * Text is a `string` (a sequence of `char`) in which each `char` stands for
 * one byte of the C++ `std::string`. Character classes are those of the "C"
 * locale, which only know about ASCII: every other character is neither
 * whitespace nor a letter and is left unchanged by case conversion.
 */
module StringUtils {

  datatype Option<T> = None | Some(value: T)

  // ---------------------------------------------------------------------
  // Character classes of the "C" locale
  // ---------------------------------------------------------------------

  /** `std::isspace` in the "C" locale: space, \t, \n, \v, \f and \r. */
  predicate IsSpace(c: char): (b: bool)
    ensures b <==> c as int == 0x20 || 0x09 <= c as int <= 0x0D
  {
    c == ' ' || c == '\t' || c == '\n' || c == '\U{B}' || c == '\U{C}' || c == '\r'
  }

  ghost predicate AllSpace(s: string) {
    forall i :: 0 <= i < |s| ==> IsSpace(s[i])
  }

  /** The two letter tables of the "C" locale, position by position. */
  const LowerLetters: string := "abcdefghijklmnopqrstuvwxyz"
  const UpperLetters: string := "ABCDEFGHIJKLMNOPQRSTUVWXYZ"

  /** `std::toupper` in the "C" locale. */
  function UpperChar(c: char): (u: char)
    ensures forall k :: 0 <= k < 26 && c == LowerLetters[k] ==> u == UpperLetters[k]
    ensures c !in LowerLetters ==> u == c
  {
    if 'a' <= c <= 'z' then (c as int - 32) as char else c
  }

  /** `std::tolower` in the "C" locale. */
  function LowerChar(c: char): (l: char)
    ensures forall k :: 0 <= k < 26 && c == UpperLetters[k] ==> l == LowerLetters[k]
    ensures c !in UpperLetters ==> l == c
  {
    if 'A' <= c <= 'Z' then (c as int + 32) as char else c
  }

  // ---------------------------------------------------------------------
  // Searching
  // ---------------------------------------------------------------------

  /** `t` occurs in `s` starting at index `i`. */
  predicate OccursAt(s: string, t: string, i: nat) {
    i + |t| <= |s| && s[i..i + |t|] == t
  }

  /**
   * `std::string_view::find(t, from)`: the leftmost occurrence of `t` at or
   * after `from`, `None` standing for `npos`. An empty `t` is found at `from`
   * as long as `from <= |s|`.
   */
  function Find(s: string, t: string, from: nat): (r: Option<nat>)
    ensures r.Some? ==> from <= r.value && OccursAt(s, t, r.value)
    decreases |s| - from
  {
    if from + |t| > |s| then None
    else if s[from..from + |t|] == t then Some(from)
    else Find(s, t, from + 1)
  }

  /** No occurrence lies between `from` and what `Find` returns (or anywhere after `from` on `None`). */
  lemma {:induction false} FindFirst(s: string, t: string, from: nat)
    ensures forall i: nat :: from <= i && (Find(s, t, from).None? || i < Find(s, t, from).value) ==> !OccursAt(s, t, i)
    decreases |s| - from
  {
    if from + |t| <= |s| && s[from..from + |t|] != t {
      FindFirst(s, t, from + 1);
    }
  }

  /** Index of the first `c` in `s`, or `|s|` when there is none. */
  function IndexOfChar(s: string, c: char): (k: nat)
    ensures k <= |s|
    ensures c !in s[..k]
    ensures k < |s| ==> s[k] == c
  {
    if s == [] || s[0] == c then 0 else 1 + IndexOfChar(s[1..], c)
  }

  function Reverse(s: string): (r: string)
    ensures |r| == |s|
    ensures forall i :: 0 <= i < |s| ==> r[i] == s[|s| - 1 - i]
  {
    if s == [] then [] else Reverse(s[1..]) + [s[0]]
  }

  // ---------------------------------------------------------------------
  // Trimming
  // ---------------------------------------------------------------------

  /** `std::find_if(..., !isspace)`: index of the first non-whitespace byte, or `|s|`. */
  function FirstNonSpace(s: string): (i: nat)
    ensures i <= |s|
    ensures AllSpace(s[..i])
    ensures i < |s| ==> !IsSpace(s[i])
  {
    if s == [] || !IsSpace(s[0]) then 0
    else
      var j := FirstNonSpace(s[1..]);
      assert s[..j + 1] == [s[0]] + s[1..][..j];
      1 + j
  }

  /** `trim_left`: the suffix of `s` that starts at its first non-whitespace byte. */
  function TrimLeft(s: string): (r: string)
    ensures |r| <= |s| && r == s[|s| - |r|..]
    ensures AllSpace(s[..|s| - |r|])
    ensures r == [] || !IsSpace(r[0])
    ensures r == [] <==> AllSpace(s)
  {
    var i := FirstNonSpace(s);
    assert AllSpace(s) ==> i == |s|;
    assert s[|s| - |s[i..]|..] == s[i..];
    s[i..]
  }

  /**
   * `trim_right`: `find_if` over the reverse iterators finds the last
   * non-whitespace byte, and `base()` turns that position into the end of
   * the kept prefix.
   */
  function TrimRight(s: string): (r: string)
    ensures |r| <= |s| && r == s[..|r|]
    ensures AllSpace(s[|r|..])
    ensures r == [] || !IsSpace(r[|r| - 1])
    ensures r == [] <==> AllSpace(s)
  {
    var rs := Reverse(s);
    var i := FirstNonSpace(rs);
    assert forall k :: |s| - i <= k < |s| ==> s[k] == rs[|s| - 1 - k];
    assert AllSpace(s) ==> AllSpace(rs) && i == |s|;
    s[..|s| - i]
  }

  /** `trim`: `trim_left(trim_right(s))`. */
  function Trim(s: string): (r: string)
    ensures r == [] || (!IsSpace(r[0]) && !IsSpace(r[|r| - 1]))
    ensures r == [] <==> AllSpace(s)
  {
    var t := TrimRight(s);
    var r := TrimLeft(t);
    assert r != [] ==> r[|r| - 1] == t[|t| - 1];
    r
  }

  // ---------------------------------------------------------------------
  // Case conversion
  // ---------------------------------------------------------------------

  /** The byte-wise image of `s` under `std::toupper`. */
  function Upper(s: string): (r: string)
    ensures |r| == |s|
    ensures forall i :: 0 <= i < |s| ==> r[i] == UpperChar(s[i])
  {
    seq(|s|, i requires 0 <= i < |s| => UpperChar(s[i]))
  }

  /** The byte-wise image of `s` under `std::tolower`. */
  function Lower(s: string): (r: string)
    ensures |r| == |s|
    ensures forall i :: 0 <= i < |s| ==> r[i] == LowerChar(s[i])
  {
    seq(|s|, i requires 0 <= i < |s| => LowerChar(s[i]))
  }

  /** `to_upper`: `std::transform` into a back-inserter, one byte at a time. */
  method ToUpper(s: string) returns (result: string)
    ensures result == Upper(s)
  {
    result := [];
    for i := 0 to |s|
      invariant result == Upper(s)[..i]
    {
      result := result + [UpperChar(s[i])];
    }
  }

  /** `to_lower`: `std::transform` into a back-inserter, one byte at a time. */
  method ToLower(s: string) returns (result: string)
    ensures result == Lower(s)
  {
    result := [];
    for i := 0 to |s|
      invariant result == Lower(s)[..i]
    {
      result := result + [LowerChar(s[i])];
    }
  }

  // ---------------------------------------------------------------------
  // Predicates
  // ---------------------------------------------------------------------

  /** `starts_with`: `p` is a prefix of `s`. */
  function StartsWith(s: string, p: string): (r: bool)
    ensures r <==> p <= s
  {
    |s| >= |p| && s[..|p|] == p
  }

  /** `ends_with`: `x` is a suffix of `s`, i.e. its reversal is a prefix of the reversal of `s`. */
  function EndsWith(s: string, x: string): (r: bool)
    ensures r <==> Reverse(x) <= Reverse(s)
  {
    ReversePrefix(s, x);
    |s| >= |x| && s[|s| - |x|..] == x
  }

  /** `contains`: `find` succeeds, i.e. `t` occurs somewhere in `s`. */
  function Contains(s: string, t: string): (r: bool)
    ensures r <==> exists i: nat :: OccursAt(s, t, i)
  {
    FindFirst(s, t, 0);
    Find(s, t, 0).Some?
  }

  lemma ReversePrefix(s: string, x: string)
    ensures (|s| >= |x| && s[|s| - |x|..] == x) <==> Reverse(x) <= Reverse(s)
  {
    var rs, rx := Reverse(s), Reverse(x);
    if |s| >= |x| && s[|s| - |x|..] == x {
      assert forall i :: 0 <= i < |x| ==> rx[i] == rs[i] by {
        forall i | 0 <= i < |x| ensures rx[i] == rs[i] {
          assert x[|x| - 1 - i] == s[|s| - |x|..][|x| - 1 - i];
        }
      }
    }
    if rx <= rs {
      assert |s| >= |x|;
      assert forall j :: 0 <= j < |x| ==> s[|s| - |x|..][j] == x[j] by {
        forall j | 0 <= j < |x| ensures s[|s| - |x|..][j] == x[j] {
          assert rx[|x| - 1 - j] == rs[|x| - 1 - j];
        }
      }
    }
  }

  // ---------------------------------------------------------------------
  // Splitting on a character
  // ---------------------------------------------------------------------

  /** The non-empty maximal runs of `s` free of `c`, from left to right. */
  function Fields(s: string, c: char): seq<string>
    decreases |s|
  {
    if s == [] then []
    else if s[0] == c then Fields(s[1..], c)
    else
      var k := IndexOfChar(s, c);
      [s[..k]] + Fields(s[k..], c)
  }

  /** A run free of `c` followed by `c` is one field. */
  lemma FieldsAfterRun(w: string, t: string, c: char)
    requires w != [] && c !in w
    ensures Fields(w + [c] + t, c) == [w] + Fields(t, c)
  {
    var s := w + [c] + t;
    var k := IndexOfChar(s, c);
    assert s[0] == w[0] && w[0] in w;
    assert s[|w|] == c;
    assert s[..|w|] == w;
    assert k == |w|;
    assert Fields(s, c) == [s[..k]] + Fields(s[k..], c);
    assert s[k..] == [c] + t;
    assert ([c] + t)[1..] == t;
  }

  /** A run free of `c` is its own single field, or no field when it is empty. */
  lemma FieldsOfRun(w: string, c: char)
    requires c !in w
    ensures Fields(w, c) == if w == [] then [] else [w]
  {
    if w != [] {
      var k := IndexOfChar(w, c);
      assert w[..k] == w;
    }
  }

  /** A leading `c` contributes no field. */
  lemma FieldsSkip(c: char, t: string)
    ensures Fields([c] + t, c) == Fields(t, c)
  {
    assert ([c] + t)[1..] == t;
  }

  /** The loop step of `SplitByChar` on a delimiter that ends the run `current`: the run is pushed. */
  lemma SplitByCharPush(s: string, c: char, i: nat, current: string, result: seq<string>)
    requires i < |s| && s[i] == c && current != [] && c !in current
    requires Fields(s, c) == result + Fields(current + s[i..], c)
    ensures Fields(s, c) == (result + [current]) + Fields(s[i + 1..], c)
  {
    var rest := s[i + 1..];
    assert current + s[i..] == current + [c] + rest by {
      assert s[i..] == [c] + rest;
    }
    FieldsAfterRun(current, rest, c);
    var tail := Fields(rest, c);
    assert result + ([current] + tail) == (result + [current]) + tail;
  }

  /** The loop step of `SplitByChar` on a delimiter with no pending run: nothing is pushed. */
  lemma SplitByCharSkip(s: string, c: char, i: nat, result: seq<string>)
    requires i < |s| && s[i] == c
    requires Fields(s, c) == result + Fields(s[i..], c)
    ensures Fields(s, c) == result + Fields(s[i + 1..], c)
  {
    assert s[i..] == [c] + s[i + 1..];
    FieldsSkip(c, s[i + 1..]);
  }

  /** The loop step of `SplitByChar` on any other byte: it extends the pending run. */
  lemma SplitByCharExtend(s: string, i: nat, current: string)
    requires i < |s|
    ensures current + s[i..] == (current + [s[i]]) + s[i + 1..]
  {
    assert s[i..] == [s[i]] + s[i + 1..];
  }

  /** `split(str, char)`: empty fragments are dropped. */
  method SplitByChar(s: string, c: char) returns (result: seq<string>)
    ensures result == Fields(s, c)
  {
    result := [];
    var current: string := [];
    assert current + s[0..] == s;
    for i := 0 to |s|
      invariant c !in current
      invariant Fields(s, c) == result + Fields(current + s[i..], c)
    {
      if s[i] == c {
        if current != [] {
          SplitByCharPush(s, c, i, current, result);
          result := result + [current];
          current := [];
        } else {
          assert current + s[i..] == s[i..];
          SplitByCharSkip(s, c, i, result);
        }
        assert current + s[i + 1..] == s[i + 1..];
      } else {
        SplitByCharExtend(s, i, current);
        current := current + [s[i]];
      }
    }
    assert current + s[|s|..] == current;
    FieldsOfRun(current, c);
    if current != [] {
      result := result + [current];
    }
  }

  // ---------------------------------------------------------------------
  // Splitting on a string
  // ---------------------------------------------------------------------

  /**
   * The pieces of `s[start..]` between the successive leftmost occurrences
   * of `d`, empty pieces included, followed by the tail after the last one.
   */
  function PiecesFrom(s: string, d: string, start: nat): (r: seq<string>)
    requires |d| > 0 && start <= |s|
    ensures |r| >= 1
    decreases |s| - start
  {
    match Find(s, d, start)
    case None => [s[start..]]
    case Some(e) => [s[start..e]] + PiecesFrom(s, d, e + |d|)
  }

  /** What `split(s, d)` returns for a non-empty delimiter `d`. */
  function Pieces(s: string, d: string): (r: seq<string>)
    requires |d| > 0
    ensures |r| >= 1
  {
    PiecesFrom(s, d, 0)
  }

  /** One step of `PiecesFrom`: the piece up to the next delimiter, or the rest when there is none. */
  lemma PiecesFromUnfold(s: string, d: string, start: nat)
    requires |d| > 0 && start <= |s|
    ensures Find(s, d, start).None? ==> PiecesFrom(s, d, start) == [s[start..]]
    ensures Find(s, d, start).Some? ==>
      var e := Find(s, d, start).value;
      start <= e && e + |d| <= |s| && PiecesFrom(s, d, start) == [s[start..e]] + PiecesFrom(s, d, e + |d|)
  {
  }

  /** The loop step of `SplitByString`: emitting the next piece keeps `done + PiecesFrom(...)` fixed. */
  lemma PiecesFromStep(s: string, d: string, start: nat, e: nat, done: seq<string>)
    requires |d| > 0 && start <= |s| && Find(s, d, start) == Some(e)
    ensures start <= e && e + |d| <= |s|
    ensures done + PiecesFrom(s, d, start) == (done + [s[start..e]]) + PiecesFrom(s, d, e + |d|)
  {
    PiecesFromUnfold(s, d, start);
    var rest := PiecesFrom(s, d, e + |d|);
    assert done + ([s[start..e]] + rest) == (done + [s[start..e]]) + rest;
  }

  /** `split(str, string_view)` for a non-empty delimiter: empty fragments are kept. */
  method SplitByString(s: string, d: string) returns (result: seq<string>)
    requires |d| > 0
    ensures result == Pieces(s, d)
  {
    result := [];
    var start: nat := 0;
    var end := Find(s, d, 0);
    while end.Some?
      invariant start <= |s|
      invariant end == Find(s, d, start)
      invariant PiecesFrom(s, d, 0) == result + PiecesFrom(s, d, start)
      decreases |s| - start
    {
      var e := end.value;
      PiecesFromStep(s, d, start, e, result);
      result := result + [s[start..e]];
      start := e + |d|;
      end := Find(s, d, start);
    }
    PiecesFromUnfold(s, d, start);
    result := result + [s[start..]];
  }

  /**
   * One pass of the `split(str, string_view)` loop with an empty delimiter:
   * `find` succeeds at `start`, the fragment it emits is empty, and the next
   * `start` (and so the next `end`) equals the old one.
   */
  lemma EmptyDelimiterNeverAdvances(s: string, start: nat)
    requires start <= |s|
    ensures Find(s, "", start) == Some(start)
    ensures s[start..Find(s, "", start).value] == ""
    ensures Find(s, "", start).value + |""| == start
  {
  }

  // ---------------------------------------------------------------------
  // Joining
  // ---------------------------------------------------------------------

  /** `parts[0] + sep + parts[1] + ... + sep + parts[n-1]`; empty for no parts. */
  function Joined(parts: seq<string>, sep: string): string
  {
    if |parts| == 0 then []
    else if |parts| == 1 then parts[0]
    else parts[0] + sep + Joined(parts[1..], sep)
  }

  lemma {:induction false} JoinedSnoc(parts: seq<string>, x: string, sep: string)
    requires parts != []
    ensures Joined(parts + [x], sep) == Joined(parts, sep) + sep + x
  {
    if |parts| == 1 {
      assert (parts + [x])[1..] == [x];
    } else {
      assert (parts + [x])[1..] == parts[1..] + [x];
      JoinedSnoc(parts[1..], x, sep);
    }
  }

  /** `join`: the first part, then separator and part for each further part. */
  method Join(parts: seq<string>, sep: string) returns (out: string)
    ensures out == Joined(parts, sep)
  {
    if |parts| == 0 {
      return [];
    }
    out := parts[0];
    assert parts[..1] == [parts[0]];
    for i := 1 to |parts|
      invariant out == Joined(parts[..i], sep)
    {
      JoinedSnoc(parts[..i], parts[i], sep);
      assert parts[..i + 1] == parts[..i] + [parts[i]];
      out := out + sep + parts[i];
    }
    assert parts[..|parts|] == parts;
  }
}
