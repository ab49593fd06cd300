/**
 * Properties of the text helpers: what trimming keeps and removes, the
 * laws of the two splits and of join, and the behaviour of case conversion
 * and of the three predicates, together with the unit-test cases.
 */
module StringUtilsProperties {
  import opened StringUtils

  // ---------------------------------------------------------------------
  // Trimming
  // ---------------------------------------------------------------------

  /** The postconditions of `TrimLeft` determine it: no other suffix satisfies them. */
  lemma TrimLeftUnique(s: string, r: string)
    requires |r| <= |s| && r == s[|s| - |r|..]
    requires AllSpace(s[..|s| - |r|])
    requires r == [] || !IsSpace(r[0])
    ensures r == TrimLeft(s)
  {
  }

  /** The postconditions of `TrimRight` determine it: no other prefix satisfies them. */
  lemma TrimRightUnique(s: string, r: string)
    requires |r| <= |s| && r == s[..|r|]
    requires AllSpace(s[|r|..])
    requires r == [] || !IsSpace(r[|r| - 1])
    ensures r == TrimRight(s)
  {
  }

  /** Left-trimming a prefix that ends past the first non-whitespace byte `s[i]`. */
  lemma TrimLeftOfPrefix(s: string, i: nat, j: nat)
    requires i < j <= |s| && AllSpace(s[..i]) && !IsSpace(s[i])
    ensures TrimLeft(s[..j]) == s[i..j]
  {
    assert s[..j][..i] == s[..i];
    assert s[..j][i..] == s[i..j];
    TrimLeftUnique(s[..j], s[i..j]);
  }

  /** Right-trimming a suffix that starts before the last non-whitespace byte `s[j - 1]`. */
  lemma TrimRightOfSuffix(s: string, i: nat, j: nat)
    requires i < j <= |s| && AllSpace(s[j..]) && !IsSpace(s[j - 1])
    ensures TrimRight(s[i..]) == s[i..j]
  {
    assert s[i..][j - i..] == s[j..];
    assert s[i..][..j - i] == s[i..j];
    TrimRightUnique(s[i..], s[i..j]);
  }

  /**
   * Unless `s` is all whitespace, its first non-whitespace byte comes before
   * its last one, and `trim` keeps exactly the bytes from the one to the other.
   */
  lemma TrimBounds(s: string)
    requires !AllSpace(s)
    ensures var i, j := |s| - |TrimLeft(s)|, |TrimRight(s)|;
            i < j && Trim(s) == s[i..j] && TrimRight(TrimLeft(s)) == s[i..j]
  {
    var i, j := |s| - |TrimLeft(s)|, |TrimRight(s)|;
    assert s[i] == TrimLeft(s)[0];
    assert s[j - 1] == TrimRight(s)[j - 1];
    TrimLeftOfPrefix(s, i, j);
    TrimRightOfSuffix(s, i, j);
  }

  /** `Trim(s)` is the slice of `s` between a whitespace prefix and a whitespace suffix. */
  lemma TrimIsSlice(s: string)
    ensures |s| - |TrimLeft(s)| + |Trim(s)| <= |s|
    ensures Trim(s) == s[|s| - |TrimLeft(s)|..|s| - |TrimLeft(s)| + |Trim(s)|]
  {
    if !AllSpace(s) {
      TrimBounds(s);
    }
  }

  /** What `trim` removes, on either side, is whitespace. */
  lemma TrimRemovesSpace(s: string)
    ensures |s| - |TrimLeft(s)| + |Trim(s)| <= |s|
    ensures AllSpace(s[..|s| - |TrimLeft(s)|])
    ensures AllSpace(s[|s| - |TrimLeft(s)| + |Trim(s)|..])
  {
    if AllSpace(s) {
      assert s[|s|..] == [];
    } else {
      TrimBounds(s);
    }
  }

  /** Trimming a second time changes nothing. */
  lemma TrimIdempotent(s: string)
    ensures Trim(Trim(s)) == Trim(s)
  {
    var r := Trim(s);
    assert r[|r|..] == [] && r[..0] == [];
    TrimRightUnique(r, r);
    TrimLeftUnique(r, r);
  }

  /** Trimming the left end first gives the same result. */
  lemma TrimEitherOrder(s: string)
    ensures TrimRight(TrimLeft(s)) == Trim(s)
  {
    if !AllSpace(s) {
      TrimBounds(s);
    }
  }

  /** Whitespace around a word that neither starts nor ends with whitespace is what `trim` removes. */
  lemma TrimAroundWord(pre: string, w: string, post: string)
    requires AllSpace(pre) && AllSpace(post)
    requires w != [] && !IsSpace(w[0]) && !IsSpace(w[|w| - 1])
    ensures Trim(pre + w + post) == w
  {
    var s := pre + w + post;
    var i, j := |pre|, |pre| + |w|;
    assert s[..i] == pre && s[j..] == post && s[i..j] == w;
    assert s[i] == w[0] && s[j - 1] == w[|w| - 1];
    TrimRightUnique(s, s[..j]);
    TrimLeftOfPrefix(s, i, j);
  }

  lemma TrimLeftExample()
    ensures TrimLeft("  hello") == "hello"
  {
    var w := "hello";
    assert !IsSpace(w[0]);
    assert "  hello"[2..] == w && AllSpace("  hello"[..2]);
    TrimLeftUnique("  hello", w);
  }

  lemma TrimLeftUnchangedExample()
    ensures TrimLeft("hello") == "hello"
  {
    var w := "hello";
    assert !IsSpace(w[0]);
    assert w[..0] == [] && w[0..] == w;
    TrimLeftUnique(w, w);
  }

  lemma TrimLeftBlankExample()
    ensures TrimLeft("  ") == ""
  {
    assert AllSpace("  ");
  }

  lemma TrimRightExample()
    ensures TrimRight("hello  ") == "hello"
  {
    var w := "hello";
    assert !IsSpace(w[4]);
    assert "hello  "[..5] == w && AllSpace("hello  "[5..]);
    TrimRightUnique("hello  ", w);
  }

  lemma TrimRightUnchangedExample()
    ensures TrimRight("hello") == "hello"
  {
    var w := "hello";
    assert !IsSpace(w[4]);
    assert w[5..] == [] && w[..5] == w;
    TrimRightUnique(w, w);
  }

  lemma TrimRightBlankExample()
    ensures TrimRight("  ") == ""
  {
    assert AllSpace("  ");
  }

  lemma TrimSpacesExample()
    ensures Trim("  hello  ") == "hello"
  {
    var w := "hello";
    assert !IsSpace(w[0]) && !IsSpace(w[4]);
    assert "  hello  " == "  " + w + "  " && AllSpace("  ");
    TrimAroundWord("  ", w, "  ");
  }

  lemma TrimUnchangedExample()
    ensures Trim("hello") == "hello"
  {
    var w := "hello";
    assert !IsSpace(w[0]) && !IsSpace(w[4]);
    assert w == [] + w + [];
    TrimAroundWord([], w, []);
  }

  lemma TrimBlankExample()
    ensures Trim("  ") == ""
  {
    assert AllSpace("  ");
  }

  lemma TrimControlExample()
    ensures Trim("\t\nhello\r\n") == "hello"
  {
    var w := "hello";
    assert !IsSpace(w[0]) && !IsSpace(w[4]);
    assert "\t\nhello\r\n" == "\t\n" + w + "\r\n" && AllSpace("\t\n") && AllSpace("\r\n");
    TrimAroundWord("\t\n", w, "\r\n");
  }

  // ---------------------------------------------------------------------
  // Splitting on a character
  // ---------------------------------------------------------------------

  /** No field is empty and no field contains the delimiter. */
  lemma {:induction false} FieldsWellFormed(s: string, c: char)
    ensures forall f :: f in Fields(s, c) ==> f != [] && c !in f
    decreases |s|
  {
    if s != [] {
      if s[0] == c {
        FieldsWellFormed(s[1..], c);
      } else {
        var k := IndexOfChar(s, c);
        FieldsWellFormed(s[k..], c);
        assert s[0] in s[..k];
      }
    }
  }

  /** `s` with every occurrence of `c` removed. */
  function Without(s: string, c: char): (r: string)
    ensures c !in r
  {
    if s == [] then [] else (if s[0] == c then [] else [s[0]]) + Without(s[1..], c)
  }

  lemma {:induction false} WithoutAppend(a: string, b: string, c: char)
    ensures Without(a + b, c) == Without(a, c) + Without(b, c)
  {
    if a != [] {
      assert (a + b)[1..] == a[1..] + b;
      WithoutAppend(a[1..], b, c);
    } else {
      assert a + b == b;
    }
  }

  lemma {:induction false} WithoutAbsent(s: string, c: char)
    requires c !in s
    ensures Without(s, c) == s
  {
    if s != [] {
      WithoutAbsent(s[1..], c);
    }
  }

  /** Concatenating the fields gives `s` with every delimiter removed. */
  lemma {:induction false} FieldsConcat(s: string, c: char)
    ensures Joined(Fields(s, c), "") == Without(s, c)
    decreases |s|
  {
    if s != [] {
      if s[0] == c {
        FieldsConcat(s[1..], c);
      } else {
        var k := IndexOfChar(s, c);
        FieldsConcat(s[k..], c);
        assert s == s[..k] + s[k..];
        WithoutAppend(s[..k], s[k..], c);
        WithoutAbsent(s[..k], c);
        var rest := Fields(s[k..], c);
        assert ([s[..k]] + rest)[1..] == rest;
      }
    }
  }

  /** `split` by a character gives no fragments exactly when every byte is the delimiter. */
  lemma {:induction false} FieldsEmptyIff(s: string, c: char)
    ensures Fields(s, c) == [] <==> forall i :: 0 <= i < |s| ==> s[i] == c
    decreases |s|
  {
    if s != [] {
      if s[0] == c {
        FieldsEmptyIff(s[1..], c);
        assert forall i :: 1 <= i < |s| ==> s[i] == s[1..][i - 1];
      }
    }
  }

  /** Fragments are non-empty and separated by delimiters: at most one fragment per two bytes, rounded up. */
  lemma {:induction false} FieldsCount(s: string, c: char)
    ensures 2 * |Fields(s, c)| <= |s| + 1
    decreases |s|
  {
    if s != [] {
      if s[0] == c {
        FieldsCount(s[1..], c);
      } else {
        var k := IndexOfChar(s, c);
        var t := s[k..];
        assert Fields(s, c) == [s[..k]] + Fields(t, c);
        if t != [] {
          assert t[0] == c;
          FieldsCount(t[1..], c);
        }
      }
    }
  }

  /** The character split drops empty fields, so joining does not undo it. */
  lemma FieldsJoinNotRoundTrip()
    ensures Joined(Fields(",a", ','), ",") == "a" != ",a"
  {
    FieldsSkip(',', "a");
    assert ",a" == [','] + "a";
    FieldsOfRun("a", ',');
  }

  lemma FieldsExample()
    ensures Fields("a,b,c", ',') == ["a", "b", "c"]
  {
    assert "a,b,c" == "a" + [','] + "b,c";
    assert "b,c" == "b" + [','] + "c";
    FieldsAfterRun("a", "b,c", ',');
    FieldsAfterRun("b", "c", ',');
    FieldsOfRun("c", ',');
  }

  // ---------------------------------------------------------------------
  // Splitting on a string
  // ---------------------------------------------------------------------

  lemma JoinedCons(p: string, parts: seq<string>, sep: string)
    requires parts != []
    ensures Joined([p] + parts, sep) == p + sep + Joined(parts, sep)
  {
    assert ([p] + parts)[1..] == parts;
  }

  /** Joining the pieces of `s[start..]` with `d` rebuilds `s[start..]`. */
  lemma {:induction false} PiecesFromJoin(s: string, d: string, start: nat)
    requires |d| > 0 && start <= |s|
    ensures Joined(PiecesFrom(s, d, start), d) == s[start..]
    decreases |s| - start
  {
    PiecesFromUnfold(s, d, start);
    if Find(s, d, start).Some? {
      var e := Find(s, d, start).value;
      var next := e + |d|;
      var head, rest := s[start..e], PiecesFrom(s, d, next);
      PiecesFromJoin(s, d, next);
      JoinedCons(head, rest, d);
      assert s[e..next] == d;
      assert s[start..] == head + s[e..next] + s[next..];
    } else {
      assert PiecesFrom(s, d, start) == [s[start..]];
    }
  }

  /** `join(split(s, d), d) == s` for every non-empty delimiter. */
  lemma PiecesJoin(s: string, d: string)
    requires |d| > 0
    ensures Joined(Pieces(s, d), d) == s
  {
    PiecesFromJoin(s, d, 0);
  }

  /** An occurrence inside a slice of `s` is an occurrence in `s`. */
  lemma OccursInSlice(s: string, t: string, a: nat, b: nat, i: nat)
    requires a <= b <= |s|
    ensures OccursAt(s[a..b], t, i) ==> OccursAt(s, t, a + i)
  {
    if OccursAt(s[a..b], t, i) {
      var inner, outer := s[a..b][i..i + |t|], s[a + i..a + i + |t|];
      forall k | 0 <= k < |t| ensures inner[k] == outer[k] {
      }
      assert inner == outer;
    }
  }

  /** Each piece ends at the leftmost occurrence after its start, so none contains the delimiter. */
  lemma {:induction false} PiecesFromAvoidDelimiter(s: string, d: string, start: nat)
    requires |d| > 0 && start <= |s|
    ensures forall p :: p in PiecesFrom(s, d, start) ==> !Contains(p, d)
    decreases |s| - start
  {
    FindFirst(s, d, start);
    match Find(s, d, start)
    case None =>
      forall i: nat ensures OccursAt(s[start..], d, i) ==> OccursAt(s, d, start + i) {
        OccursInSlice(s, d, start, |s|, i);
      }
    case Some(e) =>
      PiecesFromAvoidDelimiter(s, d, e + |d|);
      forall i: nat ensures OccursAt(s[start..e], d, i) ==> OccursAt(s, d, start + i) {
        OccursInSlice(s, d, start, e, i);
      }
  }

  /** No piece of `split(s, d)` contains `d`. */
  lemma PiecesAvoidDelimiter(s: string, d: string)
    requires |d| > 0
    ensures forall p :: p in Pieces(s, d) ==> !Contains(p, d)
  {
    PiecesFromAvoidDelimiter(s, d, 0);
  }

  /** There is more than one fragment exactly when the delimiter occurs. */
  lemma PiecesSingleIff(s: string, d: string)
    requires |d| > 0
    ensures |Pieces(s, d)| == 1 <==> !Contains(s, d)
    ensures !Contains(s, d) ==> Pieces(s, d) == [s]
  {
    assert s[0..] == s;
    match Find(s, d, 0)
    case None =>
    case Some(e) =>
      assert |PiecesFrom(s, d, e + |d|)| >= 1;
  }

  /** `Find` is pinned down by its contract: the first occurrence at or after `from`. */
  lemma FindLeftmost(s: string, t: string, from: nat, k: nat)
    requires from <= k && OccursAt(s, t, k)
    requires forall i: nat :: from <= i < k ==> !OccursAt(s, t, i)
    ensures Find(s, t, from) == Some(k)
  {
    FindFirst(s, t, from);
  }

  /** A needle whose first byte does not appear in `s[from..]` is not found there. */
  lemma FirstByteAbsent(s: string, t: string, from: nat)
    requires |t| > 0 && from <= |s| && t[0] !in s[from..]
    ensures Find(s, t, from) == None
  {
    forall i: nat | from <= i ensures !OccursAt(s, t, i) {
      if i + |t| <= |s| {
        assert s[i..i + |t|][0] == s[from..][i - from];
      }
    }
  }

  lemma PiecesExample()
    ensures Pieces("a::b::c", "::") == ["a", "b", "c"]
  {
    var s, d := "a::b::c", "::";
    assert s[1..3] == d && s[0..2][0] == 'a';
    FindLeftmost(s, d, 0, 1);
    assert s[4..6] == d && s[3..5][0] == 'b';
    FindLeftmost(s, d, 3, 4);
    assert s[6..] == "c";
    FirstByteAbsent(s, d, 6);
    assert s[0..1] == "a" && s[3..4] == "b";
  }

  lemma PiecesKeepEmptyExample()
    ensures Pieces("a::::b", "::") == ["a", "", "b"]
  {
    var s, d := "a::::b", "::";
    assert s[1..3] == d && s[0..2][0] == 'a';
    FindLeftmost(s, d, 0, 1);
    assert s[3..5] == d;
    FindLeftmost(s, d, 3, 3);
    assert s[5..] == "b";
    FirstByteAbsent(s, d, 5);
    assert s[0..1] == "a" && s[3..3] == "";
  }

  lemma PiecesTrailingExample()
    ensures Pieces("a::", "::") == ["a", ""]
  {
    var s, d := "a::", "::";
    assert s[1..3] == d && s[0..2][0] == 'a';
    FindLeftmost(s, d, 0, 1);
    assert s[3..] == "";
    FirstByteAbsent(s, d, 3);
    assert s[0..1] == "a";
  }

  lemma PiecesEmptyExample()
    ensures Pieces("", "::") == [""]
  {
    FirstByteAbsent("", "::", 0);
  }

  // ---------------------------------------------------------------------
  // Joining
  // ---------------------------------------------------------------------

  function TotalLength(parts: seq<string>): nat {
    if parts == [] then 0 else |parts[0]| + TotalLength(parts[1..])
  }

  /** The joined text holds every part and one separator between each two. */
  lemma {:induction false} JoinedLength(parts: seq<string>, sep: string)
    requires parts != []
    ensures |Joined(parts, sep)| == TotalLength(parts) + (|parts| - 1) * |sep|
  {
    if |parts| > 1 {
      JoinedLength(parts[1..], sep);
    }
  }

  lemma JoinExamples()
    ensures Joined(["a", "b", "c"], ",") == "a,b,c"
    ensures Joined(["a", "b", "c"], "::") == "a::b::c"
    ensures Joined([], ",") == ""
  {
    var parts := ["a", "b", "c"];
    assert parts[1..] == ["b", "c"] && parts[1..][1..] == ["c"];
  }

  // ---------------------------------------------------------------------
  // Case conversion
  // ---------------------------------------------------------------------

  /** Upper-casing never leaves an ASCII lower-case letter behind, lower-casing no upper-case one. */
  lemma CaseConversionComplete(s: string)
    ensures forall i :: 0 <= i < |s| ==> !('a' <= Upper(s)[i] <= 'z')
    ensures forall i :: 0 <= i < |s| ==> !('A' <= Lower(s)[i] <= 'Z')
  {
  }

  /** Upper-casing changes `s` exactly when `s` holds an ASCII lower-case letter. */
  lemma UpperFixedIff(s: string)
    ensures Upper(s) == s <==> forall i :: 0 <= i < |s| ==> !('a' <= s[i] <= 'z')
  {
    if Upper(s) == s {
      forall i | 0 <= i < |s| ensures !('a' <= s[i] <= 'z') {
        assert Upper(s)[i] == s[i];
      }
    }
  }

  /** Lower-casing changes `s` exactly when `s` holds an ASCII upper-case letter. */
  lemma LowerFixedIff(s: string)
    ensures Lower(s) == s <==> forall i :: 0 <= i < |s| ==> !('A' <= s[i] <= 'Z')
  {
    if Lower(s) == s {
      forall i | 0 <= i < |s| ensures !('A' <= s[i] <= 'Z') {
        assert Lower(s)[i] == s[i];
      }
    }
  }

  /** In the "C" locale lower-casing first makes no difference to upper-casing, and conversely. */
  lemma CaseRoundTrips(s: string)
    ensures Upper(Lower(s)) == Upper(s)
    ensures Lower(Upper(s)) == Lower(s)
    ensures Upper(Upper(s)) == Upper(s)
    ensures Lower(Lower(s)) == Lower(s)
  {
  }

  lemma UpperExamples()
    ensures Upper("hello") == "HELLO"
    ensures Upper("Hello World") == "HELLO WORLD"
    ensures Upper("") == ""
  {
  }

  lemma LowerExamples()
    ensures Lower("HELLO") == "hello"
    ensures Lower("Hello World") == "hello world"
    ensures Lower("") == ""
  {
  }

  // ---------------------------------------------------------------------
  // Predicates
  // ---------------------------------------------------------------------

  /** An empty needle is always found; one longer than the haystack never is. */
  lemma PredicatesEdges(s: string, t: string)
    ensures StartsWith(s, "") && EndsWith(s, "") && Contains(s, "")
    ensures |t| > |s| ==> !StartsWith(s, t) && !EndsWith(s, t) && !Contains(s, t)
  {
    assert OccursAt(s, "", 0);
  }

  /** A prefix or a suffix also occurs inside. */
  lemma PrefixSuffixOccur(s: string, t: string)
    ensures StartsWith(s, t) ==> Contains(s, t)
    ensures EndsWith(s, t) ==> Contains(s, t)
  {
    if StartsWith(s, t) {
      assert OccursAt(s, t, 0);
    }
    if EndsWith(s, t) {
      assert OccursAt(s, t, |s| - |t|);
    }
  }

  /** `x` is a suffix of `s` exactly when `s` is something followed by `x`. */
  lemma EndsWithIffConcat(s: string, x: string, w: string)
    ensures EndsWith(w + x, x)
    ensures EndsWith(s, x) ==> s == s[..|s| - |x|] + x
  {
    assert (w + x)[|w + x| - |x|..] == x;
  }

  /** `t` occurs in `s` exactly when `s` can be cut into some `a`, then `t`, then some `b`. */
  lemma ContainsIffConcat(s: string, t: string, a: string, b: string)
    ensures Contains(a + t + b, t)
    ensures Contains(s, t) ==> var i := Find(s, t, 0).value; s == s[..i] + t + s[i + |t|..]
  {
    var u := a + t + b;
    assert u[|a|..|a| + |t|] == t;
    assert OccursAt(u, t, |a|);
    if Contains(s, t) {
      var i := Find(s, t, 0).value;
      assert s == s[..i] + s[i..i + |t|] + s[i + |t|..];
    }
  }

  lemma StartsWithExamples()
    ensures StartsWith("hello world", "hello") && !StartsWith("hello world", "world")
    ensures StartsWith("hello", "hello") && !StartsWith("hi", "hello")
  {
  }

  lemma EndsWithExamples()
    ensures EndsWith("hello world", "world") && !EndsWith("hello world", "hello")
    ensures EndsWith("world", "world") && !EndsWith("hi", "world")
  {
  }

  lemma ContainsExample()
    ensures Contains("hello world", "lo wo")
  {
    assert OccursAt("hello world", "lo wo", 3);
  }

  lemma ContainsWholeExample()
    ensures Contains("hello", "hello")
  {
    assert OccursAt("hello", "hello", 0);
  }

  lemma ContainsMissingExample()
    ensures !Contains("hello world", "xyz")
  {
    var s := "hello world";
    assert 'x' !in s;
    FirstByteAbsent(s, "xyz", 0);
  }
}
