/**
 * non_std/StringAlgorithms/algorithm.cpp: trimming spaces, splitting by a
 * character or by a string, and cutting an alphanumeric string into its
 * digit and letter runs.  Only the blank `' '` counts as a space, and
 * characters are ASCII.
 */
module StringAlgorithms {
  import opened Options

  // Trimming.

  /** `s.find_first_not_of(' ', i)`, with `|s|` for `npos`. */
  function FirstNonSpace(s: string, i: nat): (p: nat)
    requires i <= |s|
    ensures i <= p <= |s|
    ensures p < |s| ==> s[p] != ' '
    decreases |s| - i
  {
    if i == |s| || s[i] != ' ' then i else FirstNonSpace(s, i + 1)
  }

  /** Everything `find_first_not_of` skips is a space. */
  lemma {:induction false} FirstNonSpaceSkipsSpaces(s: string, i: nat)
    requires i <= |s|
    ensures forall k :: i <= k < FirstNonSpace(s, i) ==> s[k] == ' '
    decreases |s| - i
  {
    if i < |s| && s[i] == ' ' {
      FirstNonSpaceSkipsSpaces(s, i + 1);
    }
  }

  /** Where the run of spaces that ends at `j` begins: `j` less the number of spaces just before it. */
  function SpacesBefore(s: string, j: nat): (b: nat)
    requires j <= |s|
    ensures b <= j
    ensures b > 0 ==> s[b - 1] != ' '
  {
    if j == 0 || s[j - 1] != ' ' then j else SpacesBefore(s, j - 1)
  }

  /** Everything between `SpacesBefore(s, j)` and `j` is a space. */
  lemma {:induction false} SpacesBeforeAreSpaces(s: string, j: nat)
    requires j <= |s|
    ensures forall k :: SpacesBefore(s, j) <= k < j ==> s[k] == ' '
  {
    if j > 0 && s[j - 1] == ' ' {
      SpacesBeforeAreSpaces(s, j - 1);
    }
  }

  predicate AllSpaces(s: string)
  {
    forall k :: 0 <= k < |s| ==> s[k] == ' '
  }

  /** Neither the first nor the last character is a space. */
  predicate NoEdgeSpaces(s: string)
  {
    |s| > 0 ==> s[0] != ' ' && s[|s| - 1] != ' '
  }

  /**
   * `ltrim`: the input without its leading spaces; a string made of
   * spaces only (`find_first_not_of` is `npos`) comes back unchanged.
   */
  function LTrim(s: string): (r: string)
    ensures |r| <= |s|
  {
    var p := FirstNonSpace(s, 0);
    if p < |s| then s[p..] else s
  }

  /** What `ltrim` cuts off is spaces, and what it keeps starts with a non-space. */
  lemma LTrimCutsLeadingSpaces(s: string)
    ensures AllSpaces(s) ==> LTrim(s) == s
    ensures var r := LTrim(s);
      !AllSpaces(s) ==> |r| > 0 && r[0] != ' ' && r == s[|s| - |r|..] && AllSpaces(s[..|s| - |r|])
  {
    FirstNonSpaceSkipsSpaces(s, 0);
    var p := FirstNonSpace(s, 0);
    if p < |s| {
      assert AllSpaces(s[..p]);
    }
  }

  /** `rtrim`: the input without its trailing spaces; all spaces give `""`. */
  function RTrim(s: string): (r: string)
    ensures |r| <= |s|
  {
    s[..SpacesBefore(s, |s|)]
  }

  /** What `rtrim` keeps is a prefix that ends in a non-space, and what it cuts off is spaces. */
  lemma RTrimCutsTrailingSpaces(s: string)
    ensures var r := RTrim(s);
      (|r| > 0 ==> r[|r| - 1] != ' ') && r == s[..|r|] && AllSpaces(s[|r|..])
  {
    SpacesBeforeAreSpaces(s, |s|);
    assert AllSpaces(s[SpacesBefore(s, |s|)..]);
  }

  /**
   * `trim`: the contiguous part of the input left once its leading and
   * trailing spaces are cut off; `TrimIsRTrimOfLTrim` shows it is
   * `rtrim(ltrim(in))`, as the source composes it.
   */
  function Trim(s: string): (r: string)
    ensures NoEdgeSpaces(r)
  {
    var a := FirstNonSpace(s, 0);
    if a == |s| then []
    else
      SpacesBeforeAreSpaces(s, |s|);
      s[a..SpacesBefore(s, |s|)]
  }

  /** Cutting the first `a` characters, the first of them kept being no space, shifts where the trailing spaces begin by `a`. */
  lemma {:induction false} SpacesBeforeAfterDrop(s: string, a: nat, j: nat)
    requires a < j <= |s| && s[a] != ' '
    ensures SpacesBefore(s[a..], j - a) + a == SpacesBefore(s, j)
    decreases j
  {
    if s[j - 1] == ' ' {
      SpacesBeforeAfterDrop(s, a, j - 1);
    }
  }

  /** `trim` is `rtrim` after `ltrim`. */
  lemma TrimIsRTrimOfLTrim(s: string)
    ensures Trim(s) == RTrim(LTrim(s))
  {
    var a := FirstNonSpace(s, 0);
    if a == |s| {
      FirstNonSpaceSkipsSpaces(s, 0);
      assert SpacesBefore(s, |s|) == 0;
    } else {
      SpacesBeforeAfterDrop(s, a, |s|);
    }
  }

  /** What `trim` keeps is a contiguous part of the input with only spaces around it. */
  lemma TrimIsMiddle(s: string)
    ensures exists a, b :: 0 <= a <= b <= |s| && Trim(s) == s[a..b] && AllSpaces(s[..a]) && AllSpaces(s[b..])
  {
    FirstNonSpaceSkipsSpaces(s, 0);
    SpacesBeforeAreSpaces(s, |s|);
    var a := FirstNonSpace(s, 0);
    if a == |s| {
      assert Trim(s) == s[0..0] && AllSpaces(s[..0]) && AllSpaces(s[0..]);
    } else {
      var b := SpacesBefore(s, |s|);
      assert Trim(s) == s[a..b] && AllSpaces(s[..a]) && AllSpaces(s[b..]);
    }
  }

  /** A string with no space at either end is left as it is by `ltrim`, `rtrim` and `trim`. */
  lemma TrimFixes(s: string)
    requires NoEdgeSpaces(s)
    ensures LTrim(s) == s && RTrim(s) == s && Trim(s) == s
  {
  }

  /** `trim` is idempotent. */
  lemma TrimIdempotent(s: string)
    ensures Trim(Trim(s)) == Trim(s)
  {
    TrimFixes(Trim(s));
  }

  /** Only `' '` is trimmed: tabs and line breaks at the ends stay. */
  lemma TrimKeepsOtherBlanks()
    ensures Trim(" \ta\n ") == "\ta\n"
  {
    assert FirstNonSpace(" \ta\n ", 0) == 1;
    assert SpacesBefore(" \ta\n ", 5) == 4;
    assert " \ta\n "[1..4] == "\ta\n";
  }

  // Splitting.

  /** The characters of `d` from index `k` on appear in `s` from position `p + k` on. */
  predicate MatchesFrom(s: string, d: string, p: nat, k: nat)
    requires k <= |d|
    decreases |d| - k
  {
    p + k <= |s| && (k == |d| || (p + k < |s| && s[p + k] == d[k] && MatchesFrom(s, d, p, k + 1)))
  }

  /** The string `d` occurs in `s` at position `p`, compared character by character as `find` does. */
  predicate OccursAt(s: string, d: string, p: nat)
  {
    MatchesFrom(s, d, p, 0)
  }

  lemma {:induction false} MatchesFromSlice(s: string, d: string, p: nat, k: nat)
    requires k <= |d|
    ensures MatchesFrom(s, d, p, k) <==> p + |d| <= |s| && s[p + k..p + |d|] == d[k..]
    decreases |d| - k
  {
    if k < |d| {
      MatchesFromSlice(s, d, p, k + 1);
      if p + |d| <= |s| {
        assert s[p + k..p + |d|] == [s[p + k]] + s[p + k + 1..p + |d|];
        assert d[k..] == [d[k]] + d[k + 1..];
      }
    }
  }

  /** `d` occurs at `p` exactly when the slice of `s` of its length at `p` is `d`. */
  lemma OccursAtSlice(s: string, d: string, p: nat)
    ensures OccursAt(s, d, p) <==> p + |d| <= |s| && s[p..p + |d|] == d
  {
    MatchesFromSlice(s, d, p, 0);
    assert d[0..] == d;
  }

  /** `s.find(d, i)`: the first occurrence of `d` in `s` at `i` or after; `None` for `npos`. */
  function FindStr(s: string, d: string, i: nat): (r: Option<nat>)
    requires i <= |s|
    ensures r.Some? ==> i <= r.value && r.value + |d| <= |s|
    decreases |s| - i
  {
    if OccursAt(s, d, i) then
      OccursAtSlice(s, d, i);
      Some(i)
    else if i + |d| >= |s| then None
    else FindStr(s, d, i + 1)
  }

  /**
   * `find` returns an occurrence, and the first one: there is none before
   * it, and none at all for `npos`.
   */
  lemma {:induction false} FindStrFirst(s: string, d: string, i: nat)
    requires i <= |s|
    ensures var r := FindStr(s, d, i);
      r.Some? ==> OccursAt(s, d, r.value)
    ensures var r := FindStr(s, d, i);
      forall q :: i <= q && (r.None? || q < r.value) ==> !OccursAt(s, d, q)
    decreases |s| - i
  {
    if !OccursAt(s, d, i) {
      if i + |d| < |s| {
        FindStrFirst(s, d, i + 1);
      } else {
        forall q | i < q
          ensures !OccursAt(s, d, q)
        {
          OccursAtSlice(s, d, q);
        }
      }
    }
  }

  /** `s.find(c, i)`: the first position at `i` or after holding `c`; `None` for `npos`. */
  function FindChar(s: string, c: char, i: nat): (r: Option<nat>)
    requires i <= |s|
    ensures r.Some? ==> i <= r.value < |s| && s[r.value] == c
    decreases |s| - i
  {
    if i == |s| then None
    else if s[i] == c then Some(i)
    else FindChar(s, c, i + 1)
  }

  /** `find` returns the first position holding `c`: none before it, and none at all for `npos`. */
  lemma {:induction false} FindCharFirst(s: string, c: char, i: nat)
    requires i <= |s|
    ensures var r := FindChar(s, c, i);
      forall q :: i <= q < |s| && (r.None? || q < r.value) ==> s[q] != c
    decreases |s| - i
  {
    if i < |s| && s[i] != c {
      FindCharFirst(s, c, i + 1);
    }
  }

  /**
   * The untrimmed fields `splitAndTrim` cuts from position `i` on: the text
   * up to the next `c` and then the fields after it, or the rest when no
   * `c` follows; nothing once `i` reaches the end.
   */
  function FieldsFrom(s: string, c: char, i: nat): (r: seq<string>)
    requires i <= |s|
    decreases |s| - i
  {
    if i == |s| then []
    else match FindChar(s, c, i)
      case None => [s[i..]]
      case Some(p) => [s[i..p]] + FieldsFrom(s, c, p + 1)
  }

  /** The untrimmed fields `splitAndTrimByStr` cuts from position `i` on, with the delimiter `d`. */
  function FieldsByFrom(s: string, d: string, i: nat): (r: seq<string>)
    requires |d| > 0 && i <= |s|
    decreases |s| - i
  {
    if i == |s| then []
    else match FindStr(s, d, i)
      case None => [s[i..]]
      case Some(p) => [s[i..p]] + FieldsByFrom(s, d, p + |d|)
  }

  /** `trim` applied to every field. */
  function TrimAll(fields: seq<string>): (r: seq<string>)
    ensures |r| == |fields| && forall i :: 0 <= i < |fields| ==> r[i] == Trim(fields[i])
  {
    if |fields| == 0 then [] else [Trim(fields[0])] + TrimAll(fields[1..])
  }

  /** Trimming a field followed by more fields. */
  lemma TrimAllCons(f: string, rest: seq<string>)
    ensures TrimAll([f] + rest) == [Trim(f)] + TrimAll(rest)
  {
    assert ([f] + rest)[1..] == rest;
  }

  /** Trimming the fields with one more field after them. */
  lemma {:induction false} TrimAllSnoc(fields: seq<string>, f: string)
    ensures TrimAll(fields + [f]) == TrimAll(fields) + [Trim(f)]
    decreases |fields|
  {
    if |fields| == 0 {
      assert fields + [f] == [f] + [];
      TrimAllCons(f, []);
    } else {
      var rest := fields[1..];
      assert fields + [f] == [fields[0]] + (rest + [f]);
      assert fields == [fields[0]] + rest;
      TrimAllCons(fields[0], rest + [f]);
      TrimAllSnoc(rest, f);
      TrimAllCons(fields[0], rest);
      AppendAssoc([Trim(fields[0])], TrimAll(rest), [Trim(f)]);
    }
  }

  lemma AppendAssoc<T>(a: seq<T>, b: seq<T>, c: seq<T>)
    ensures (a + b) + c == a + (b + c)
  {
  }

  /** The fields put back together, `d` between each two. */
  function Join(fields: seq<string>, d: string): string
  {
    if |fields| == 0 then ""
    else if |fields| == 1 then fields[0]
    else fields[0] + d + Join(fields[1..], d)
  }

  /** `Join` of a field followed by more fields. */
  lemma JoinCons(f: string, rest: seq<string>, d: string)
    ensures Join([f] + rest, d) == if |rest| == 0 then f else f + d + Join(rest, d)
  {
    assert ([f] + rest)[1..] == rest;
  }

  /**
   * The fields of `splitAndTrim`, joined by `c`, give back the input but
   * for a final `c`, which leaves no empty field behind.
   */
  lemma {:induction false} FieldsJoin(s: string, c: char, i: nat)
    requires i <= |s|
    ensures Join(FieldsFrom(s, c, i), [c]) + (if i < |s| && s[|s| - 1] == c then [c] else []) == s[i..]
    decreases |s| - i
  {
    if i == |s| {
      assert FieldsFrom(s, c, i) == [];
      assert s[i..] == [];
    } else {
      match FindChar(s, c, i)
      case None =>
        FieldsJoinLast(s, c, i);
      case Some(p) =>
        if p + 1 < |s| {
          FieldsJoin(s, c, p + 1);
        }
        FieldsJoinStep(s, c, i, p);
    }
  }

  /** The last step of `FieldsJoin`, with no `c` left. */
  lemma FieldsJoinLast(s: string, c: char, i: nat)
    requires i < |s| && FindChar(s, c, i).None?
    ensures Join(FieldsFrom(s, c, i), [c]) + (if s[|s| - 1] == c then [c] else []) == s[i..]
  {
    FindCharFirst(s, c, i);
    assert FieldsFrom(s, c, i) == [s[i..]];
    assert Join([s[i..]], [c]) == s[i..];
    assert s[|s| - 1] != c;
    assert s[i..] + [] == s[i..];
  }

  /** The step of `FieldsJoin` past one delimiter. */
  lemma FieldsJoinStep(s: string, c: char, i: nat, p: nat)
    requires i < |s| && FindChar(s, c, i) == Some(p)
    requires p + 1 < |s| ==>
      Join(FieldsFrom(s, c, p + 1), [c]) + (if s[|s| - 1] == c then [c] else []) == s[p + 1..]
    ensures Join(FieldsFrom(s, c, i), [c]) + (if s[|s| - 1] == c then [c] else []) == s[i..]
  {
    FieldsFromUnfold(s, c, i, p);
    SliceAround(s, i, p, p + 1);
    assert s[p..p + 1] == [c];
    if p + 1 == |s| {
      FieldsJoinFinalDelimiter(s, c, i, p);
    } else {
      JoinAfterDelimiter(s[i..p], FieldsFrom(s, c, p + 1), [c], if s[|s| - 1] == c then [c] else [], s[p + 1..], s[i..]);
    }
  }

  /** One step of `FieldsFrom` when a `c` is found at `p`. */
  lemma FieldsFromUnfold(s: string, c: char, i: nat, p: nat)
    requires i < |s| && FindChar(s, c, i) == Some(p)
    ensures FieldsFrom(s, c, i) == [s[i..p]] + FieldsFrom(s, c, p + 1)
  {
  }

  /** A field and a delimiter put in front of fields that join back to `rest`. */
  lemma JoinAfterDelimiter(a: string, fields: seq<string>, d: string, tail: string, rest: string, whole: string)
    requires |fields| > 0 && Join(fields, d) + tail == rest && whole == a + d + rest
    ensures Join([a] + fields, d) + tail == whole
  {
    JoinCons(a, fields, d);
    AppendAssoc(a + d, Join(fields, d), tail);
  }

  /** A `c` that ends the input closes the last field and adds no empty one. */
  lemma FieldsJoinFinalDelimiter(s: string, c: char, i: nat, p: nat)
    requires i <= p && p + 1 == |s| && s[p] == c
    requires s[i..] == s[i..p] + [c] + s[p + 1..]
    ensures Join([s[i..p]] + FieldsFrom(s, c, p + 1), [c]) + [c] == s[i..]
  {
    assert FieldsFrom(s, c, p + 1) == [];
    assert [s[i..p]] + [] == [s[i..p]];
    assert s[p + 1..] == [];
    assert s[i..p] + [c] + [] == s[i..p] + [c];
  }

  /** No field of `splitAndTrim` contains the delimiter. */
  lemma {:induction false} FieldsWithoutDelimiter(s: string, c: char, i: nat)
    requires i <= |s|
    ensures forall f :: f in FieldsFrom(s, c, i) ==> c !in f
    decreases |s| - i
  {
    if i < |s| {
      FindCharFirst(s, c, i);
      match FindChar(s, c, i)
      case None =>
        assert forall q :: 0 <= q < |s[i..]| ==> s[i..][q] == s[i + q];
      case Some(p) =>
        assert forall q :: 0 <= q < |s[i..p]| ==> s[i..p][q] == s[i + q];
        FieldsWithoutDelimiter(s, c, p + 1);
    }
  }

  /** `splitAndTrim` by `c` cuts the same fields as `splitAndTrimByStr` by the one-character string `c`. */
  lemma {:induction false} FieldsByOneChar(s: string, c: char, i: nat)
    requires i <= |s|
    ensures FieldsFrom(s, c, i) == FieldsByFrom(s, [c], i)
    decreases |s| - i
  {
    if i < |s| {
      FindOneChar(s, c, i);
      match FindChar(s, c, i)
      case None =>
      case Some(p) => FieldsByOneChar(s, c, p + 1);
    }
  }

  /** Finding a character is finding the string made of it. */
  lemma {:induction false} FindOneChar(s: string, c: char, i: nat)
    requires i <= |s|
    ensures FindChar(s, c, i) == FindStr(s, [c], i)
    decreases |s| - i
  {
    if i < |s| {
      OccursAtSlice(s, [c], i);
      assert i + 1 <= |s| ==> s[i..i + 1] == [s[i]];
      if s[i] != c && i + 1 < |s| {
        FindOneChar(s, c, i + 1);
      }
    }
  }

  /**
   * The fields of `splitAndTrimByStr`, joined by `d`, give back the input,
   * or the input without a delimiter that ended it.
   */
  lemma {:induction false} FieldsByJoin(s: string, d: string, i: nat)
    requires |d| > 0 && i <= |s|
    ensures JoinsBack(Join(FieldsByFrom(s, d, i), d), d, s[i..])
    decreases |s| - i
  {
    if i == |s| {
      assert FieldsByFrom(s, d, i) == [];
      assert s[i..] == [];
    } else {
      FindStrFirst(s, d, i);
      match FindStr(s, d, i)
      case None =>
        assert FieldsByFrom(s, d, i) == [s[i..]];
        assert Join([s[i..]], d) == s[i..];
      case Some(p) =>
        var q := p + |d|;
        if q < |s| {
          FieldsByJoin(s, d, q);
        }
        FieldsByJoinStep(s, d, i, p);
    }
  }

  /** `j` is `whole`, or `whole` without a delimiter `d` that ended it. */
  predicate JoinsBack(j: string, d: string, whole: string)
  {
    j == whole || j + d == whole
  }

  /** The step of `FieldsByJoin` past one delimiter. */
  lemma FieldsByJoinStep(s: string, d: string, i: nat, p: nat)
    requires |d| > 0 && i < |s| && FindStr(s, d, i) == Some(p) && OccursAt(s, d, p)
    requires p + |d| < |s| ==> JoinsBack(Join(FieldsByFrom(s, d, p + |d|), d), d, s[p + |d|..])
    ensures JoinsBack(Join(FieldsByFrom(s, d, i), d), d, s[i..])
  {
    var q := p + |d|;
    FieldsByFromUnfold(s, d, i, p);
    OccursAtSlice(s, d, p);
    SliceAround(s, i, p, q);
    if q == |s| {
      FieldsByJoinFinalDelimiter(s, d, i, p);
    } else {
      JoinsBackField(s[i..p], FieldsByFrom(s, d, q), d, s[q..], s[i..]);
    }
  }

  /** One step of `FieldsByFrom` when a delimiter is found at `p`. */
  lemma FieldsByFromUnfold(s: string, d: string, i: nat, p: nat)
    requires |d| > 0 && i < |s| && FindStr(s, d, i) == Some(p)
    ensures FieldsByFrom(s, d, i) == [s[i..p]] + FieldsByFrom(s, d, p + |d|)
  {
  }

  /** A field and a delimiter in front of fields that join back to `tail`. */
  lemma JoinsBackField(a: string, rest: seq<string>, d: string, tail: string, whole: string)
    requires |rest| > 0 && JoinsBack(Join(rest, d), d, tail) && whole == a + d + tail
    ensures JoinsBack(Join([a] + rest, d), d, whole)
  {
    JoinCons(a, rest, d);
    JoinsBackCons(a, d, Join(rest, d), tail);
  }

  /** A delimiter that ends the input closes the last field and adds no empty one. */
  lemma FieldsByJoinFinalDelimiter(s: string, d: string, i: nat, p: nat)
    requires |d| > 0 && i <= p && p + |d| == |s|
    requires s[i..] == s[i..p] + d + s[p + |d|..]
    ensures JoinsBack(Join([s[i..p]] + FieldsByFrom(s, d, p + |d|), d), d, s[i..])
  {
    assert FieldsByFrom(s, d, p + |d|) == [];
    assert [s[i..p]] + [] == [s[i..p]];
    assert s[p + |d|..] == [];
    assert s[i..p] + d + [] == s[i..p] + d;
  }

  /** Putting the same field and delimiter in front keeps `JoinsBack`. */
  lemma JoinsBackCons(a: string, d: string, j: string, whole: string)
    requires JoinsBack(j, d, whole)
    ensures JoinsBack(a + d + j, d, a + d + whole)
  {
    if j != whole {
      AppendAssoc(a + d, j, d);
    }
  }

  /** A sequence from `i` on is its part before `p`, its part from `p` to `q` and its rest. */
  lemma SliceAround<T>(s: seq<T>, i: nat, p: nat, q: nat)
    requires i <= p <= q <= |s|
    ensures s[i..] == s[i..p] + s[p..q] + s[q..]
  {
  }

  lemma SliceOfSlice<T>(s: seq<T>, i: nat, j: nat, a: nat, b: nat)
    requires i <= j <= |s| && a <= b <= j - i
    ensures s[i..j][a..b] == s[i + a..i + b]
  {
    var t := s[i..j];
    forall k | 0 <= k < b - a
      ensures t[a..b][k] == s[i + a..i + b][k]
    {
      assert t[a..b][k] == t[a + k] == s[i + a + k];
    }
  }

  /** No field of `splitAndTrimByStr` contains the delimiter. */
  lemma {:induction false} FieldsByWithoutDelimiter(s: string, d: string, i: nat)
    requires |d| > 0 && i <= |s|
    ensures forall k, q :: 0 <= k < |FieldsByFrom(s, d, i)| && 0 <= q ==> !OccursAt(FieldsByFrom(s, d, i)[k], d, q)
    decreases |s| - i
  {
    if i < |s| {
      FindStrFirst(s, d, i);
      match FindStr(s, d, i)
      case None =>
        assert FieldsByFrom(s, d, i) == [s[i..]];
        forall q | 0 <= q
          ensures !OccursAt(s[i..], d, q)
        {
          PieceWithoutDelimiter(s, d, i, |s|, q);
          assert s[i..|s|] == s[i..];
        }
      case Some(p) =>
        var rest := FieldsByFrom(s, d, p + |d|);
        FieldsByFromUnfold(s, d, i, p);
        FieldsByWithoutDelimiter(s, d, p + |d|);
        forall q | 0 <= q
          ensures !OccursAt(s[i..p], d, q)
        {
          PieceWithoutDelimiter(s, d, i, p, q);
        }
        ConsWithoutDelimiter(s[i..p], rest, d);
    }
  }

  /** A piece of `s` in which `d` starts nowhere does not contain `d`. */
  lemma PieceWithoutDelimiter(s: string, d: string, i: nat, j: nat, q: nat)
    requires |d| > 0 && i <= j <= |s|
    requires forall t :: i <= t < j ==> !OccursAt(s, d, t)
    ensures !OccursAt(s[i..j], d, q)
  {
    if OccursAt(s[i..j], d, q) {
      OccursAtSlice(s[i..j], d, q);
      SliceOfSlice(s, i, j, q, q + |d|);
      OccursAtSlice(s, d, i + q);
      assert false;
    }
  }

  /** A field without `d` in front of fields without `d`. */
  lemma ConsWithoutDelimiter(f: string, rest: seq<string>, d: string)
    requires forall q :: 0 <= q ==> !OccursAt(f, d, q)
    requires forall k, q :: 0 <= k < |rest| && 0 <= q ==> !OccursAt(rest[k], d, q)
    ensures forall k, q :: 0 <= k < |[f] + rest| && 0 <= q ==> !OccursAt(([f] + rest)[k], d, q)
  {
    forall k, q | 0 <= k < |[f] + rest| && 0 <= q
      ensures !OccursAt(([f] + rest)[k], d, q)
    {
      if k > 0 {
        assert ([f] + rest)[k] == rest[k - 1];
      }
    }
  }

  /** Splitting an empty string gives no field, and adjacent delimiters give an empty one. */
  lemma SplitKeepsEmptyFields()
    ensures FieldsFrom("", ',', 0) == []
    ensures TrimAll(FieldsFrom("a,,b", ',', 0)) == ["a", "", "b"]
  {
    var s := "a,,b";
    assert FindChar(s, ',', 3) == None;
    assert FieldsFrom(s, ',', 3) == ["b"];
    assert FindChar(s, ',', 2) == Some(2);
    assert s[2..2] == "" && s[3..] == "b" && s[0..1] == "a";
    assert FieldsFrom(s, ',', 2) == [""] + ["b"];
    assert FindChar(s, ',', 0) == Some(1);
    assert FieldsFrom(s, ',', 0) == ["a"] + ["", "b"];
    TrimFixes("a");
    TrimFixes("");
    TrimFixes("b");
    TrimAllCons("b", []);
    TrimAllCons("", ["b"]);
    TrimAllCons("a", ["", "b"]);
  }

  /** A delimiter that ends the input leaves no empty field after it, and the fields are trimmed. */
  lemma SplitDropsFinalEmptyField()
    ensures TrimAll(FieldsFrom(" a , b,", ',', 0)) == ["a", "b"]
  {
    var s := " a , b,";
    assert FieldsFrom(s, ',', 7) == [];
    assert FindChar(s, ',', 4) == Some(6);
    assert s[4..6] == " b" && s[0..3] == " a ";
    assert FieldsFrom(s, ',', 4) == [" b"] + [];
    assert FindChar(s, ',', 0) == Some(3);
    assert FieldsFrom(s, ',', 0) == [" a "] + [" b"];
    assert FirstNonSpace(" a ", 0) == 1 && SpacesBefore(" a ", 3) == 2;
    assert Trim(" a ") == "a";
    assert FirstNonSpace(" b", 0) == 1 && SpacesBefore(" b", 2) == 2;
    assert Trim(" b") == "b";
    TrimAllCons(" b", []);
    TrimAllCons(" a ", [" b"]);
  }

  /** One step of the `splitAndTrim` loop: the field up to the next `c` is the next of the fields. */
  lemma FieldsFromNext(s: string, c: char, i: nat, p: nat, done: seq<string>, whole: seq<string>)
    requires i < |s| && FindChar(s, c, i) == Some(p)
    requires done + FieldsFrom(s, c, i) == whole
    ensures (done + [s[i..p]]) + FieldsFrom(s, c, p + 1) == whole
  {
    FieldsFromUnfold(s, c, i, p);
    AppendAssoc(done, [s[i..p]], FieldsFrom(s, c, p + 1));
  }

  /** The last step of the `splitAndTrim` loop: with no `c` left, the rest is the last field. */
  lemma FieldsFromLast(s: string, c: char, i: nat, done: seq<string>, whole: seq<string>)
    requires i < |s| && FindChar(s, c, i).None?
    requires done + FieldsFrom(s, c, i) == whole
    ensures done + [s[i..]] == whole
  {
    assert FieldsFrom(s, c, i) == [s[i..]];
  }

  /** One step of the `splitAndTrimByStr` loop: the field up to the next `d` is the next of the fields. */
  lemma FieldsByFromNext(s: string, d: string, i: nat, p: nat, done: seq<string>, whole: seq<string>)
    requires |d| > 0 && i < |s| && FindStr(s, d, i) == Some(p)
    requires done + FieldsByFrom(s, d, i) == whole
    ensures (done + [s[i..p]]) + FieldsByFrom(s, d, p + |d|) == whole
  {
    FieldsByFromUnfold(s, d, i, p);
    AppendAssoc(done, [s[i..p]], FieldsByFrom(s, d, p + |d|));
  }

  /** The last step of the `splitAndTrimByStr` loop: with no `d` left, the rest is the last field. */
  lemma FieldsByFromLast(s: string, d: string, i: nat, done: seq<string>, whole: seq<string>)
    requires |d| > 0 && i < |s| && FindStr(s, d, i).None?
    requires done + FieldsByFrom(s, d, i) == whole
    ensures done + [s[i..]] == whole
  {
    assert FieldsByFrom(s, d, i) == [s[i..]];
  }

  /**
   * `splitAndTrim(in, c)`: the trimmed fields between the occurrences of
   * `c`, in order.
   */
  method SplitAndTrim(s: string, c: char) returns (out: seq<string>)
    ensures out == TrimAll(FieldsFrom(s, c, 0))
  {
    out := [];
    ghost var done: seq<string> := [];
    var i: nat := 0;
    while i < |s|
      invariant i <= |s|
      invariant done + FieldsFrom(s, c, i) == FieldsFrom(s, c, 0)
      invariant out == TrimAll(done)
      decreases |s| - i
    {
      var pos := FindChar(s, c, i);
      if pos.None? {
        FieldsFromLast(s, c, i, done, FieldsFrom(s, c, 0));
        TrimAllSnoc(done, s[i..]);
        out := out + [Trim(s[i..])];
        done := done + [s[i..]];
        break;
      }
      var field := s[i..pos.value];
      FieldsFromNext(s, c, i, pos.value, done, FieldsFrom(s, c, 0));
      TrimAllSnoc(done, field);
      out := out + [Trim(field)];
      done := done + [field];
      i := pos.value + 1;
    }
    if i == |s| {
      assert FieldsFrom(s, c, i) == [];
      assert done + [] == done;
    }
  }

  /**
   * `splitAndTrimByStr(in, delimeter)`: the trimmed fields between the
   * occurrences of `d`, resuming after the whole delimiter; an empty
   * delimiter would make the source loop forever.
   */
  method SplitAndTrimByStr(s: string, d: string) returns (out: seq<string>)
    requires |d| > 0
    ensures out == TrimAll(FieldsByFrom(s, d, 0))
  {
    out := [];
    ghost var done: seq<string> := [];
    var i: nat := 0;
    while i < |s|
      invariant i <= |s|
      invariant done + FieldsByFrom(s, d, i) == FieldsByFrom(s, d, 0)
      invariant out == TrimAll(done)
      decreases |s| - i
    {
      var pos := FindStr(s, d, i);
      if pos.None? {
        FieldsByFromLast(s, d, i, done, FieldsByFrom(s, d, 0));
        TrimAllSnoc(done, s[i..]);
        out := out + [Trim(s[i..])];
        done := done + [s[i..]];
        break;
      }
      var field := s[i..pos.value];
      FieldsByFromNext(s, d, i, pos.value, done, FieldsByFrom(s, d, 0));
      TrimAllSnoc(done, field);
      out := out + [Trim(field)];
      done := done + [field];
      i := pos.value + |d|;
    }
    if i == |s| {
      assert FieldsByFrom(s, d, i) == [];
      assert done + [] == done;
    }
  }

  // Digit and letter runs.

  /** `std::isdigit` in the ASCII locale. */
  predicate IsDigit(ch: char)
  {
    '0' <= ch <= '9'
  }

  /** `std::isalpha` in the ASCII locale. */
  predicate IsAlpha(ch: char)
  {
    'a' <= ch <= 'z' || 'A' <= ch <= 'Z'
  }

  predicate Alphanumeric(s: string)
  {
    forall k :: 0 <= k < |s| ==> IsDigit(s[k]) || IsAlpha(s[k])
  }

  /** `in[i]`: the terminating `'\0'` at `i == |s|`. */
  function CharAt(s: string, i: nat): char
    requires i <= |s|
  {
    if i < |s| then s[i] else '\0'
  }

  /** The end of the run of digits (`digits`) or of letters starting at `i`. */
  function RunEnd(s: string, i: nat, digits: bool): (j: nat)
    requires i <= |s|
    ensures i <= j <= |s|
    ensures forall k :: i <= k < j ==> if digits then IsDigit(s[k]) else IsAlpha(s[k])
    ensures j < |s| ==> if digits then !IsDigit(s[j]) else !IsAlpha(s[j])
    decreases |s| - i
  {
    if i == |s| || (if digits then !IsDigit(s[i]) else !IsAlpha(s[i])) then i
    else RunEnd(s, i + 1, digits)
  }

  /** The maximal runs of digits and of letters from position `i` on, in order. */
  function RunsFrom(s: string, i: nat): (r: seq<string>)
    requires i <= |s| && Alphanumeric(s)
    ensures i == |s| <==> |r| == 0
    decreases |s| - i
  {
    if i == |s| then []
    else
      var j := RunEnd(s, i, IsDigit(s[i]));
      [s[i..j]] + RunsFrom(s, j)
  }

  /** The runs from `i` on: the run starting at `i`, then the runs after it. */
  lemma RunsStep(s: string, i: nat)
    requires i < |s| && Alphanumeric(s)
    ensures var j := RunEnd(s, i, IsDigit(s[i]));
      RunsFrom(s, i) == [s[i..j]] + RunsFrom(s, j)
  {
  }

  /** A non-empty string of digits only or of letters only. */
  predicate IsRun(r: string)
  {
    |r| > 0 && ((forall k :: 0 <= k < |r| ==> IsDigit(r[k])) || (forall k :: 0 <= k < |r| ==> IsAlpha(r[k])))
  }

  /** The strings concatenated in order. */
  function Concat(parts: seq<string>): string
  {
    if parts == [] then "" else parts[0] + Concat(parts[1..])
  }

  /**
   * The runs are non-empty, each of digits only or of letters only, two
   * neighbours never of the same kind, and together they spell the input.
   */
  lemma {:induction false} RunsSpell(s: string, i: nat)
    requires i <= |s| && Alphanumeric(s)
    ensures var runs := RunsFrom(s, i);
      && Concat(runs) == s[i..]
      && (forall k :: 0 <= k < |runs| ==> IsRun(runs[k]))
      && (forall k :: 0 <= k < |runs| - 1 ==> IsDigit(runs[k][0]) != IsDigit(runs[k + 1][0]))
    decreases |s| - i
  {
    if i < |s| {
      var j := RunEnd(s, i, IsDigit(s[i]));
      var runs := RunsFrom(s, i);
      RunsSpell(s, j);
      assert runs[1..] == RunsFrom(s, j);
      assert s[i..] == s[i..j] + s[j..];
      assert IsRun(s[i..j]) by {
        assert forall k :: 0 <= k < j - i ==> s[i..j][k] == s[i + k];
      }
      if j < |s| {
        assert runs[1][0] == s[j];
      }
    }
  }

  /**
   * One inner loop of `splitNumbersAndLetters`: the characters from `i` on
   * pushed one by one while `isdigit` (`digits`) or `isalpha` holds of
   * `in[i]`.
   */
  method TakeRun(s: string, i: nat, digits: bool) returns (run: string, j: nat)
    requires i <= |s|
    ensures j == RunEnd(s, i, digits) && run == s[i..j]
  {
    run := "";
    j := i;
    while if digits then IsDigit(CharAt(s, j)) else IsAlpha(CharAt(s, j))
      invariant i <= j <= |s| && run == s[i..j]
      invariant RunEnd(s, j, digits) == RunEnd(s, i, digits)
      decreases |s| - j
    {
      run := run + [s[j]];
      j := j + 1;
    }
  }

  /**
   * `splitNumbersAndLetters(in)`: each pass of the outer loop takes a run
   * of digits and then a run of letters, keeping the non-empty ones.  A
   * character neither digit nor letter stops both inner loops without
   * advancing, so the source terminates only on alphanumeric input.
   */
  method SplitNumbersAndLetters(s: string) returns (out: seq<string>)
    requires Alphanumeric(s)
    ensures out == RunsFrom(s, 0)
  {
    out := [];
    var i := 0;
    while i < |s|
      invariant i <= |s|
      invariant out + RunsFrom(s, i) == RunsFrom(s, 0)
      decreases |s| - i
    {
      var number, afterNumber := TakeRun(s, i, true);
      if |number| > 0 {
        RunsStep(s, i);
        AppendAssoc(out, [number], RunsFrom(s, afterNumber));
        out := out + [number];
      }
      var letters, afterLetters := TakeRun(s, afterNumber, false);
      if |letters| > 0 {
        RunsStep(s, afterNumber);
        AppendAssoc(out, [letters], RunsFrom(s, afterLetters));
        out := out + [letters];
      }
      i := afterLetters;
    }
  }
}
