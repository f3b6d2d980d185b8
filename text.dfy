/** The string handling of `bind`/`unbind`: `String.prototype.split`, the
    `while (eventName = events.pop())` loop over the parts, the dot namespace,
    the alias table, and the `indexOf`/`splice` pair used on lists. */
module Text {
  import opened Base

  /** `s.split(sep)` for a one-character separator: the maximal runs between
      separators, empty runs included ("a  b" gives "a", "", "b"). */
  function Split(s: string, sep: char): (parts: seq<string>)
    decreases |s|
    ensures |parts| > 0
    ensures forall i :: 0 <= i < |parts| ==> sep !in parts[i]
    ensures sep in s <==> |parts| > 1
  {
    if s == [] then [""]
    else
      var rest := Split(s[1..], sep);
      if s[0] == sep then [""] + rest
      else [[s[0]] + rest[0]] + rest[1..]
  }

  /** `parts.join(sep)`. */
  function Join(parts: seq<string>, sep: char): string
    requires |parts| > 0
    decreases |parts|
  {
    if |parts| == 1 then parts[0] else parts[0] + [sep] + Join(parts[1..], sep)
  }

  /** Splitting and joining again gives back the string. */
  lemma {:induction false} JoinSplit(s: string, sep: char)
    decreases |s|
    ensures Join(Split(s, sep), sep) == s
  {
    if s != [] {
      JoinSplit(s[1..], sep);
      var rest := Split(s[1..], sep);
      if s[0] != sep && |rest| > 1 {
        assert ([[s[0]] + rest[0]] + rest[1..])[1..] == rest[1..];
      }
    }
  }

  /** A prefix free of separators glues onto the first part. */
  lemma {:induction false} SplitPrefix(a: string, t: string, sep: char)
    requires sep !in a
    decreases |a|
    ensures Split(a + t, sep) == [a + Split(t, sep)[0]] + Split(t, sep)[1..]
  {
    if a != [] {
      SplitPrefix(a[1..], t, sep);
      assert (a + t)[1..] == a[1..] + t;
      assert (a + t)[0] == a[0];
      assert [a[0]] + (a[1..] + Split(t, sep)[0]) == a + Split(t, sep)[0];
    } else {
      assert a + t == t;
      assert a + Split(t, sep)[0] == Split(t, sep)[0];
    }
  }

  /** Joining parts that hold no separator and splitting again gives back
      the parts. */
  lemma {:induction false} SplitJoin(parts: seq<string>, sep: char)
    requires |parts| > 0
    requires forall i :: 0 <= i < |parts| ==> sep !in parts[i]
    decreases |parts|
    ensures Split(Join(parts, sep), sep) == parts
  {
    if |parts| == 1 {
      SplitPrefix(parts[0], "", sep);
      assert parts[0] + "" == parts[0];
    } else {
      var tail := Join(parts[1..], sep);
      SplitJoin(parts[1..], sep);
      SplitPrefix(parts[0], [sep] + tail, sep);
      assert parts[0] + [sep] + tail == parts[0] + ([sep] + tail);
      assert ([sep] + tail)[1..] == tail;
      assert ([sep] + tail)[0] == sep;
      assert Split([sep] + tail, sep) == [""] + parts[1..];
      assert Join(parts, sep) == parts[0] + [sep] + tail;
      assert parts[0] + "" == parts[0];
      assert [parts[0]] + parts[1..] == parts;
    }
  }

  /** A separator occurs in the join of two or more parts. */
  lemma JoinHasSeparator(parts: seq<string>, sep: char)
    requires |parts| > 1
    ensures sep in Join(parts, sep)
  {
    var s := Join(parts, sep);
    assert s[|parts[0]|] == sep;
  }

  /** The names `while (eventName = events.pop())` visits: parts are taken
      from the end and the loop stops at the first empty part, which is
      falsy. */
  function PopTokens(parts: seq<string>): (toks: seq<string>)
    decreases |parts|
    ensures |toks| <= |parts|
    ensures forall i :: 0 <= i < |toks| ==> toks[i] == parts[|parts| - 1 - i] && toks[i] != ""
    ensures |toks| < |parts| ==> parts[|parts| - 1 - |toks|] == ""
  {
    if |parts| == 0 || parts[|parts| - 1] == "" then []
    else [parts[|parts| - 1]] + PopTokens(parts[..|parts| - 1])
  }

  /** An event name resolved through the alias table, with the part after its
      first dot as namespace. */
  datatype EventKey = EventKey(name: EventName, namespace: Option<string>)

  /** `THREE.InteractionManager.Atlas[eventName] || eventName`. */
  function Resolve(name: string): EventName
  {
    if name == "tap" then "click"
    else if name == "dbltap" then "dblclick"
    else name
  }

  /** The namespace step of `bind`/`unbind`: split on '.', keep part 0 as the
      name and part 1 as the namespace (further parts are dropped). */
  function ParseName(s: string): EventKey
  {
    if '.' in s then
      var data := Split(s, '.');
      EventKey(Resolve(data[0]), Some(data[1]))
    else EventKey(Resolve(s), None)
  }

  /** The name `bind` and `unbind` use for hover tracking parses to itself. */
  lemma MousemovePlain()
    ensures ParseName("mousemove") == EventKey("mousemove", None)
  {
    var s := "mousemove";
    assert forall i :: 0 <= i < |s| ==> s[i] != '.';
  }

  /** "root.ns" and "root.ns.more" both resolve to `root` with namespace
      `ns`; a name with no dot has no namespace. */
  lemma ParseNameNamespaced(root: string, ns: string, rest: string)
    requires '.' !in root && '.' !in ns
    requires rest == [] || rest[0] == '.'
    ensures ParseName(root + "." + ns + rest) == EventKey(Resolve(root), Some(ns))
  {
    var s := root + "." + ns + rest;
    assert s == root + (['.'] + (ns + rest));
    assert s[|root|] == '.';
    SplitPrefix(root, ['.'] + (ns + rest), '.');
    assert (['.'] + (ns + rest))[1..] == ns + rest;
    SplitPrefix(ns, rest, '.');
    assert Split(rest, '.')[0] == "" by {
      if rest != [] { assert rest[0] == '.'; }
    }
    assert Split(s, '.')[0] == root;
    assert Split(s, '.')[1] == ns;
  }

  /** `s.indexOf(x)`: the first position of `x`, or -1. */
  function IndexOf<T(==)>(s: seq<T>, x: T): (r: int)
    decreases |s|
    ensures -1 <= r < |s|
    ensures r == -1 <==> x !in s
    ensures 0 <= r ==> s[r] == x && x !in s[..r]
  {
    if s == [] then -1
    else if s[0] == x then 0
    else
      var k := IndexOf(s[1..], x);
      if k == -1 then -1
      else
        assert s[..k + 1] == [s[0]] + s[1..][..k];
        k + 1
  }

  /** `s.splice(i, 1)`. */
  function RemoveAt<T>(s: seq<T>, i: nat): (r: seq<T>)
    requires i < |s|
    ensures |r| == |s| - 1
    ensures forall j :: 0 <= j < i ==> r[j] == s[j]
    ensures forall j :: i <= j < |r| ==> r[j] == s[j + 1]
  {
    s[..i] + s[i + 1..]
  }

  /** No element occurs twice. */
  predicate NoDup<T(==)>(s: seq<T>)
  {
    forall i, j :: 0 <= i < j < |s| ==> s[i] != s[j]
  }

  /** An element of a list without duplicates occurs in it exactly once. */
  lemma {:induction false} NoDupOnce<T>(s: seq<T>, x: T)
    requires NoDup(s) && x in s
    decreases |s|
    ensures multiset(s)[x] == 1
  {
    assert s == [s[0]] + s[1..];
    if s[0] == x {
      assert x !in s[1..] by {
        forall j | 0 <= j < |s[1..]| ensures s[1..][j] != x {
          assert s[j + 1] != s[0];
        }
      }
    } else {
      NoDupOnce(s[1..], x);
    }
  }

  /** Removing the first occurrence from a list without duplicates removes
      the element altogether and keeps the list free of duplicates. */
  lemma RemoveFirstNoDup<T>(s: seq<T>, x: T)
    requires NoDup(s) && x in s
    ensures x !in RemoveAt(s, IndexOf(s, x))
    ensures NoDup(RemoveAt(s, IndexOf(s, x)))
    ensures forall y :: y != x ==> (y in RemoveAt(s, IndexOf(s, x)) <==> y in s)
  {
    var k := IndexOf(s, x);
    var r := RemoveAt(s, k);
    forall y | y in s && y != x ensures y in r {
      var j :| 0 <= j < |s| && s[j] == y;
      if j < k { assert r[j] == y; } else { assert j > k; assert r[j - 1] == y; }
    }
  }
}
