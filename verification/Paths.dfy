/** Configuration paths: the textual form "/a/b/c" and the queue of keys it is split into
    (src/libs/utils/misc/string_split.h), plus the key order of std::map<std::string, ...>. */
module Paths {

  type Path = seq<string>

  /** A key that splitting can produce: not empty and free of the delimiter. */
  predicate IsKey(k: string) {
    k != "" && '/' !in k
  }

  predicate IsPath(p: Path) {
    forall i :: 0 <= i < |p| ==> IsKey(p[i])
  }

  /** The text enum_leafs builds while it descends: every key preceded by a slash. */
  function Join(p: Path): string {
    if p == [] then "" else "/" + p[0] + Join(p[1..])
  }

  function FirstSlash(s: string): (i: nat)
    ensures i <= |s| && forall j :: 0 <= j < i ==> s[j] != '/'
    ensures i < |s| ==> s[i] == '/'
  {
    if s == "" || s[0] == '/' then 0 else 1 + FirstSlash(s[1..])
  }

  /** str_split_to_queue: cut at every slash and drop the empty pieces. */
  function Split(s: string): (p: Path)
    ensures IsPath(p)
    decreases |s|
  {
    if s == "" then []
    else
      var i := FirstSlash(s);
      var rest := if i < |s| then s[i + 1..] else "";
      (if i > 0 then [s[..i]] else []) + Split(rest)
  }

  lemma FirstSlashAfterKey(k: string, rest: string)
    requires '/' !in k
    requires rest == "" || rest[0] == '/'
    ensures FirstSlash(k + rest) == |k|
  {
    if k == "" {
      assert k + rest == rest;
    } else {
      assert (k + rest)[0] == k[0] && (k + rest)[1..] == k[1..] + rest;
      FirstSlashAfterKey(k[1..], rest);
    }
  }

  lemma JoinStartsWithSlash(p: Path)
    ensures Join(p) == "" <==> p == []
    ensures p != [] ==> Join(p)[0] == '/'
  {
  }

  /** A slash in front changes nothing. */
  lemma SplitSlash(s: string)
    ensures Split("/" + s) == Split(s)
  {
    var t := "/" + s;
    assert t[0] == '/' && t[1..] == s && FirstSlash(t) == 0;
  }

  lemma SplitKey(k: string, rest: string)
    requires IsKey(k) && (rest == "" || rest[0] == '/')
    ensures Split(k + rest) == [k] + Split(rest)
  {
    var t := k + rest;
    FirstSlashAfterKey(k, rest);
    assert t[..|k|] == k;
    if rest == "" {
      assert t == k;
    } else {
      assert t[|k| + 1..] == rest[1..] && rest == "/" + rest[1..];
      SplitSlash(rest[1..]);
    }
  }

  /** Splitting undoes joining on every path made of proper keys. */
  lemma {:induction false} SplitJoin(p: Path)
    requires IsPath(p)
    ensures Split(Join(p)) == p
  {
    hide Split;
    if p == [] {
      SplitNothing();
    } else {
      var rest := Join(p[1..]);
      assert Join(p) == "/" + (p[0] + rest);
      JoinStartsWithSlash(p[1..]);
      SplitSlash(p[0] + rest);
      SplitKey(p[0], rest);
      SplitJoin(p[1..]);
    }
  }

  lemma SplitNothing()
    ensures Split("") == []
  {
  }

  /** Distinct proper paths have distinct texts, so a map keyed by texts loses no leaf. */
  lemma JoinInjective(p: Path, q: Path)
    requires IsPath(p) && IsPath(q) && Join(p) == Join(q)
    ensures p == q
  {
    SplitJoin(p);
    SplitJoin(q);
  }

  lemma {:induction false} JoinAppend(p: Path, q: Path)
    ensures Join(p + q) == Join(p) + Join(q)
  {
    if p == [] {
      assert p + q == q;
    } else {
      assert (p + q)[1..] == p[1..] + q;
      JoinAppend(p[1..], q);
    }
  }

  // ---- The order in which std::map iterates over its keys ----

  /** Lexicographic order on strings. */
  predicate Less(a: string, b: string) {
    b != "" && (a == "" || a[0] < b[0] || (a[0] == b[0] && Less(a[1..], b[1..])))
  }

  lemma LessTrans(a: string, b: string, c: string)
    requires Less(a, b) && Less(b, c)
    ensures Less(a, c)
  {
  }

  lemma LessTotal(a: string, b: string)
    ensures Less(a, b) || Less(b, a) || a == b
  {
    if a != "" && b != "" && a[0] == b[0] {
      LessTotal(a[1..], b[1..]);
      assert a == [a[0]] + a[1..] && b == [b[0]] + b[1..];
    }
  }

  lemma LessIrreflexive(a: string)
    ensures !Less(a, a)
  {
  }

  /** The texts agree before position i and differ there upwards, or the first one ends there. */
  predicate FirstDifference(a: string, b: string, i: nat) {
    && i <= |a| && i < |b| && a[..i] == b[..i]
    && (i == |a| || a[i] < b[i])
  }

  /** A text is less than another exactly if it is a proper beginning of it or is smaller at the first difference. */
  lemma {:induction false} LessMeans(a: string, b: string)
    ensures Less(a, b) <==> exists i :: FirstDifference(a, b, i)
  {
    if a != "" && b != "" && a[0] == b[0] {
      LessMeans(a[1..], b[1..]);
      if Less(a[1..], b[1..]) {
        var i: nat :| FirstDifference(a[1..], b[1..], i);
        assert a[..i + 1] == [a[0]] + a[1..][..i] && b[..i + 1] == [b[0]] + b[1..][..i];
        assert FirstDifference(a, b, i + 1);
      }
      if i: nat :| FirstDifference(a, b, i) {
        assert i > 0;
        assert a[1..][..i - 1] == a[..i][1..] && b[1..][..i - 1] == b[..i][1..];
        assert FirstDifference(a[1..], b[1..], i - 1);
      }
    } else if b != "" {
      if a == "" || a[0] < b[0] { assert FirstDifference(a, b, 0); }
      if i: nat :| FirstDifference(a, b, i) && i > 0 {
        assert false;
      }
    }
  }

  predicate IsMin(k: string, s: set<string>) {
    k in s && forall j :: j in s && j != k ==> Less(k, j)
  }

  lemma MinExists(s: set<string>)
    requires s != {}
    ensures exists k :: IsMin(k, s)
  {
    var x :| x in s;
    if s - {x} == {} {
      assert s == {x};
      assert IsMin(x, s);
    } else {
      MinExists(s - {x});
      var m :| IsMin(m, s - {x});
      LessTotal(x, m);
      if Less(x, m) {
        forall j | j in s && j != x ensures Less(x, j) {
          if j != m { LessTrans(x, m, j); }
        }
        assert IsMin(x, s);
      } else {
        assert IsMin(m, s);
      }
    }
  }

  lemma MinUnique(a: string, b: string, s: set<string>)
    requires IsMin(a, s) && IsMin(b, s)
    ensures a == b
  {
    if a != b {
      LessTrans(a, b, a);
      LessIrreflexive(a);
    }
  }

  function MinKey(s: set<string>): (k: string)
    requires s != {}
    ensures IsMin(k, s)
  {
    MinExists(s);
    assert forall a, b | IsMin(a, s) && IsMin(b, s) :: a == b by {
      forall a, b | IsMin(a, s) && IsMin(b, s) ensures a == b { MinUnique(a, b, s); }
    }
    var k :| k in s && IsMin(k, s);
    k
  }

  /** The keys of a std::map in iteration order. */
  function SortedKeys(s: set<string>): (ks: seq<string>)
    ensures forall k :: k in ks <==> k in s
    ensures forall i, j :: 0 <= i < j < |ks| ==> ks[i] != ks[j] && Less(ks[i], ks[j])
    decreases s
  {
    if s == {} then []
    else
      var k := MinKey(s);
      [k] + SortedKeys(s - {k})
  }
}
