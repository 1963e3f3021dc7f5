/**
 * The few PHP built-ins the plugin's completion logic leans on, written out
 * so that their edge cases are explicit: `empty()` on strings, `strtolower`,
 * `trim`, `substr` from the end, `explode`/`join`, and the keyed-array
 * functions `array_unique`, `array_search`, `unset` and `$a[] = v`.
 */
module Php {

  datatype Option<T> = None | Some(value: T) {
    function GetOr(default: T): T {
      match this
      case Some(v) => v
      case None => default
    }
  }

  datatype Result<T, E> = Ok(value: T) | Err(error: E)

  // ---------------------------------------------------------------------
  // Strings
  // ---------------------------------------------------------------------

  /** PHP's `empty()` on a string value: true for "" and for "0". */
  predicate EmptyStr(s: string) {
    s == "" || s == "0"
  }

  function LowerChar(c: char): char {
    if 'A' <= c <= 'Z' then (c as int + 32) as char else c
  }

  /** `strtolower`: ASCII letters only, as PHP 8.2 does. */
  function Lower(s: string): (r: string)
    ensures |r| == |s|
    ensures forall i :: 0 <= i < |s| ==> r[i] == LowerChar(s[i])
  {
    if s == [] then [] else [LowerChar(s[0])] + Lower(s[1..])
  }

  lemma {:induction false} LowerIdempotent(s: string)
    ensures Lower(Lower(s)) == Lower(s)
  {
    if s != [] {
      LowerIdempotent(s[1..]);
      assert Lower(s)[1..] == Lower(s[1..]);
    }
  }

  predicate IsTrimmed(c: char) {
    c == ' ' || c == '\t' || c == '\n' || c == '\r' || c == '\0' || c == '\U{000B}'
  }

  function TrimLeft(s: string): (r: string)
    ensures |r| <= |s| && r == s[|s| - |r|..]
    ensures r == [] || !IsTrimmed(r[0])
  {
    if s != [] && IsTrimmed(s[0]) then TrimLeft(s[1..]) else s
  }

  function TrimRight(s: string): (r: string)
    ensures |r| <= |s| && r == s[..|r|]
    ensures r == [] || !IsTrimmed(r[|r| - 1])
  {
    if s != [] && IsTrimmed(s[|s| - 1]) then TrimRight(s[..|s| - 1]) else s
  }

  /** `trim` with PHP's default character list. */
  function Trim(s: string): string {
    TrimRight(TrimLeft(s))
  }

  /** `stripslashes`: a backslash escapes the next character ("\\0" gives NUL); a trailing one is dropped. */
  function StripSlashes(s: string): (r: string)
    ensures |r| <= |s|
    ensures '\\' !in s ==> r == s
  {
    if s == [] then []
    else if s[0] == '\\' then
      if |s| == 1 then []
      else (if s[1] == '0' then ['\0'] else [s[1]]) + StripSlashes(s[2..])
    else [s[0]] + StripSlashes(s[1..])
  }

  predicate StartsWith(s: string, prefix: string) {
    |prefix| <= |s| && s[..|prefix|] == prefix
  }

  predicate EndsWith(s: string, suffix: string) {
    |suffix| <= |s| && s[|s| - |suffix|..] == suffix
  }

  /** `substr($s, -n)`: the last n characters, or all of s when it is shorter. */
  function TailChars(s: string, n: nat): (r: string)
    ensures |r| == if |s| <= n then |s| else n
  {
    if |s| <= n then s else s[|s| - n..]
  }

  /** `substr($s, -|suffix|) == $suffix` is exactly "s ends with suffix". */
  lemma TailCharsIsEndsWith(s: string, suffix: string)
    ensures (TailChars(s, |suffix|) == suffix) <==> EndsWith(s, suffix)
  {
  }

  /** `strpos($s, $c)`: the index of the first c, or |s| when there is none. */
  function FirstIndex(s: string, c: char): (r: nat)
    ensures r <= |s|
    ensures c !in s[..r]
    ensures r < |s| ==> s[r] == c
  {
    if s == [] then 0
    else if s[0] == c then 0
    else
      var r := 1 + FirstIndex(s[1..], c);
      assert s[..r] == [s[0]] + s[1..][..r - 1];
      r
  }

  /** `explode($sep, $s)` for a one-character separator: never empty. */
  function Explode(sep: char, s: string): (parts: seq<string>)
    ensures |parts| >= 1
    ensures forall i :: 0 <= i < |parts| ==> sep !in parts[i]
  {
    if s == [] then [""]
    else
      var rest := Explode(sep, s[1..]);
      if s[0] == sep then [""] + rest
      else [[s[0]] + rest[0]] + rest[1..]
  }

  /** `join($sep, $parts)`. */
  function Join(sep: char, parts: seq<string>): string {
    if parts == [] then ""
    else if |parts| == 1 then parts[0]
    else parts[0] + [sep] + Join(sep, parts[1..])
  }

  /** Splitting what was joined gives the parts back, provided no part holds the separator. */
  lemma {:induction false} ExplodeJoin(sep: char, parts: seq<string>)
    requires |parts| >= 1
    requires forall i :: 0 <= i < |parts| ==> sep !in parts[i]
    ensures Explode(sep, Join(sep, parts)) == parts
  {
    if |parts| == 1 {
      ExplodeNoSep(sep, parts[0]);
    } else {
      ExplodeJoin(sep, parts[1..]);
      ExplodePrefix(sep, parts[0], Join(sep, parts[1..]));
    }
  }

  lemma {:induction false} ExplodeNoSep(sep: char, s: string)
    requires sep !in s
    ensures Explode(sep, s) == [s]
  {
    if s != [] {
      ExplodeNoSep(sep, s[1..]);
      assert [s[0]] + s[1..] == s;
    }
  }

  lemma {:induction false} ExplodePrefix(sep: char, head: string, tail: string)
    requires sep !in head
    ensures Explode(sep, head + [sep] + tail) == [head] + Explode(sep, tail)
  {
    if head == [] {
      assert head + [sep] + tail == [sep] + tail;
      assert ([sep] + tail)[1..] == tail;
    } else {
      var s := head + [sep] + tail;
      assert s[1..] == head[1..] + [sep] + tail;
      ExplodePrefix(sep, head[1..], tail);
      assert [head[0]] + head[1..] == head;
    }
  }

  /** Joining what was split gives the string back. */
  lemma {:induction false} JoinExplode(sep: char, s: string)
    ensures Join(sep, Explode(sep, s)) == s
  {
    if s != [] {
      JoinExplode(sep, s[1..]);
      var rest := Explode(sep, s[1..]);
      if s[0] == sep {
        assert ([""] + rest)[1..] == rest;
        assert [sep] + s[1..] == s;
      } else {
        var parts := [[s[0]] + rest[0]] + rest[1..];
        if |rest| == 1 {
          assert Join(sep, parts) == [s[0]] + rest[0];
          assert [s[0]] + s[1..] == s;
        } else {
          assert parts[1..] == rest[1..];
          assert Join(sep, rest) == rest[0] + [sep] + Join(sep, rest[1..]);
          assert [s[0]] + s[1..] == s;
        }
      }
    }
  }

  // ---------------------------------------------------------------------
  // Keyed arrays: a PHP list of strings keeps its integer keys through
  // `unset`, `array_unique` and a JSON round trip.
  // ---------------------------------------------------------------------

  datatype Slot = Slot(key: nat, val: string)

  type PhpList = seq<Slot>

  function Values(l: PhpList): (vs: seq<string>)
    ensures |vs| == |l|
    ensures forall i :: 0 <= i < |l| ==> vs[i] == l[i].val
  {
    if l == [] then [] else [l[0].val] + Values(l[1..])
  }

  function Keys(l: PhpList): set<nat> {
    set i | 0 <= i < |l| :: l[i].key
  }

  /** `array('a', 'b', ...)`: keys 0, 1, 2, ... */
  function ListOf(vs: seq<string>): (l: PhpList)
    ensures |l| == |vs|
    ensures forall i :: 0 <= i < |vs| ==> l[i] == Slot(i, vs[i])
  {
    seq(|vs|, i requires 0 <= i < |vs| => Slot(i, vs[i]))
  }

  function MaxKey(l: PhpList): nat {
    if l == [] then 0
    else var m := MaxKey(l[1..]); if l[0].key > m then l[0].key else m
  }

  lemma {:induction false} MaxKeyBounds(l: PhpList)
    ensures forall i :: 0 <= i < |l| ==> l[i].key <= MaxKey(l)
  {
    if l != [] {
      MaxKeyBounds(l[1..]);
    }
  }

  /** The key `$a[] = v` uses: one past the largest key, 0 for an empty array. */
  function NextKey(l: PhpList): (k: nat)
    ensures forall i :: 0 <= i < |l| ==> l[i].key < k
  {
    MaxKeyBounds(l);
    if l == [] then 0 else MaxKey(l) + 1
  }

  /** `$a[] = v`. */
  function Push(l: PhpList, v: string): (r: PhpList)
    ensures Values(r) == Values(l) + [v]
    ensures r[..|l|] == l && r[|l|].key !in Keys(l)
  {
    l + [Slot(NextKey(l), v)]
  }

  /** `array_search($v, $a)`: the key of the first slot holding v. */
  function Search(l: PhpList, v: string): (r: Option<nat>)
    ensures r.None? <==> v !in Values(l)
  {
    if l == [] then None
    else if l[0].val == v then Some(l[0].key)
    else
      assert Values(l) == [l[0].val] + Values(l[1..]);
      Search(l[1..], v)
  }

  /** Slot i holds v under key k, and no earlier slot holds v. */
  predicate FirstSlot(l: PhpList, v: string, i: int, k: nat) {
    0 <= i < |l| && l[i] == Slot(k, v) && forall j :: 0 <= j < i ==> l[j].val != v
  }

  /** When found, the key is that of the first slot holding the value. */
  lemma {:induction false} SearchFirst(l: PhpList, v: string)
    requires v in Values(l)
    ensures exists i :: FirstSlot(l, v, i, Search(l, v).value)
  {
    if l[0].val == v {
      assert FirstSlot(l, v, 0, Search(l, v).value);
    } else {
      var t := l[1..];
      assert Values(l) == [l[0].val] + Values(t);
      assert Search(l, v) == Search(t, v);
      SearchFirst(t, v);
      var i :| FirstSlot(t, v, i, Search(t, v).value);
      assert forall j :: 1 <= j < i + 1 ==> l[j] == t[j - 1];
      assert FirstSlot(l, v, i + 1, Search(l, v).value);
    }
  }

  /** `unset($a[$k])`: drops the slot with key k, if any. */
  function RemoveKey(l: PhpList, k: nat): (r: PhpList)
    ensures forall s :: s in r <==> s in l && s.key != k
    ensures |r| <= |l|
  {
    if l == [] then []
    else if l[0].key == k then RemoveKey(l[1..], k)
    else [l[0]] + RemoveKey(l[1..], k)
  }

  /** Keys of a PHP array are unique. */
  predicate DistinctKeys(l: PhpList) {
    forall i, j :: 0 <= i < j < |l| ==> l[i].key != l[j].key
  }

  /** PHP's loose `==` on two arrays: the same key/value pairs, whatever their order. */
  predicate SameArray(a: PhpList, b: PhpList) {
    (forall s :: s in a ==> s in b) && (forall s :: s in b ==> s in a)
  }

  /** A value is in the array exactly when some slot holds it. */
  lemma InValues(l: PhpList, v: string)
    ensures v in Values(l) <==> exists s :: s in l && s.val == v
  {
    if v in Values(l) {
      var i :| 0 <= i < |l| && Values(l)[i] == v;
      assert l[i] in l;
    }
  }

  predicate DistinctVals(vs: seq<string>) {
    forall i, j :: 0 <= i < j < |vs| ==> vs[i] != vs[j]
  }

  /** `array_unique` continued past the values in `seen`: first occurrences, keys kept. */
  function UniqueFrom(l: PhpList, seen: set<string>): (r: PhpList)
    ensures forall s :: s in r ==> s in l && s.val !in seen
  {
    if l == [] then []
    else if l[0].val in seen then UniqueFrom(l[1..], seen)
    else [l[0]] + UniqueFrom(l[1..], seen + {l[0].val})
  }

  lemma {:induction false} UniqueFromValues(l: PhpList, seen: set<string>)
    ensures forall v :: v in Values(UniqueFrom(l, seen)) <==> v in Values(l) && v !in seen
  {
    if l != [] {
      assert Values(l) == [l[0].val] + Values(l[1..]);
      if l[0].val in seen {
        UniqueFromValues(l[1..], seen);
      } else {
        UniqueFromValues(l[1..], seen + {l[0].val});
        var rest := UniqueFrom(l[1..], seen + {l[0].val});
        assert Values([l[0]] + rest) == [l[0].val] + Values(rest);
      }
    }
  }

  lemma {:induction false} UniqueFromDistinct(l: PhpList, seen: set<string>)
    ensures DistinctVals(Values(UniqueFrom(l, seen)))
  {
    if l != [] {
      if l[0].val in seen {
        UniqueFromDistinct(l[1..], seen);
      } else {
        UniqueFromDistinct(l[1..], seen + {l[0].val});
        var rest := UniqueFrom(l[1..], seen + {l[0].val});
        var vs := Values([l[0]] + rest);
        assert vs == [l[0].val] + Values(rest);
        forall i | 0 <= i < |rest| ensures rest[i].val != l[0].val {
          assert rest[i] in rest;
        }
      }
    }
  }

  /** The first slot holding each value not in `seen` is one of the slots kept. */
  lemma {:induction false} UniqueFromFirst(l: PhpList, seen: set<string>)
    ensures forall i :: 0 <= i < |l| && l[i].val !in seen && (forall j :: 0 <= j < i ==> l[j].val != l[i].val) ==>
      l[i] in UniqueFrom(l, seen)
  {
    if l != [] {
      var seen' := if l[0].val in seen then seen else seen + {l[0].val};
      UniqueFromFirst(l[1..], seen');
      forall i | 0 < i < |l| && l[i].val !in seen && (forall j :: 0 <= j < i ==> l[j].val != l[i].val)
        ensures l[i] in UniqueFrom(l, seen)
      {
        assert l[1..][i - 1] == l[i];
        assert l[0].val != l[i].val;
        forall j | 0 <= j < i - 1 ensures l[1..][j].val != l[1..][i - 1].val {
          assert l[1..][j] == l[j + 1];
        }
      }
    }
  }

  /** `array_unique($a)`: every value once, at the key of its first occurrence. */
  function Unique(l: PhpList): (r: PhpList)
    ensures DistinctVals(Values(r))
    ensures forall v :: v in Values(r) <==> v in Values(l)
    ensures forall s :: s in r ==> s in l
    ensures forall i :: 0 <= i < |l| && (forall j :: 0 <= j < i ==> l[j].val != l[i].val) ==> l[i] in r
  {
    UniqueFromValues(l, {});
    UniqueFromDistinct(l, {});
    UniqueFromFirst(l, {});
    UniqueFrom(l, {})
  }

  /** Keeps the slots whose value starts with `prefix` (the `substr(...) !== $prefix` unset loop). */
  function KeepPrefixed(l: PhpList, prefix: string): (r: PhpList)
    ensures forall s :: s in r <==> s in l && StartsWith(s.val, prefix)
  {
    if l == [] then []
    else if StartsWith(l[0].val, prefix) then [l[0]] + KeepPrefixed(l[1..], prefix)
    else KeepPrefixed(l[1..], prefix)
  }

  /** In an array without repeated values, a value determines its slot. */
  lemma SameValSameSlot(l: PhpList, s: Slot, t: Slot)
    requires DistinctVals(Values(l)) && s in l && t in l && s.val == t.val
    ensures s == t
  {
    var i :| 0 <= i < |l| && l[i] == s;
    var j :| 0 <= j < |l| && l[j] == t;
    assert Values(l)[i] == Values(l)[j];
  }

  lemma DistinctValsTail(l: PhpList)
    requires l != [] && DistinctVals(Values(l))
    ensures DistinctVals(Values(l[1..]))
    ensures forall s :: s in l[1..] ==> s.val != l[0].val
  {
    forall i, j | 0 <= i < j < |l[1..]| ensures Values(l[1..])[i] != Values(l[1..])[j] {
      assert Values(l)[i + 1] != Values(l)[j + 1];
    }
    forall s | s in l[1..] ensures s.val != l[0].val {
      var j :| 0 <= j < |l[1..]| && l[1..][j] == s;
      assert Values(l)[0] != Values(l)[j + 1];
    }
  }

  lemma DistinctValsCons(s: Slot, l: PhpList)
    requires DistinctVals(Values(l)) && forall t :: t in l ==> t.val != s.val
    ensures DistinctVals(Values([s] + l))
  {
    var vs := Values([s] + l);
    forall i, j | 0 <= i < j < |vs| ensures vs[i] != vs[j] {
      assert ([s] + l)[j] == l[j - 1];
      if i > 0 {
        assert vs[i] == Values(l)[i - 1] && vs[j] == Values(l)[j - 1];
      } else {
        assert l[j - 1] in l;
      }
    }
  }

  /** Dropping slots never introduces a repeated value. */
  lemma {:induction false} KeepPrefixedDistinct(l: PhpList, prefix: string)
    requires DistinctVals(Values(l))
    ensures DistinctVals(Values(KeepPrefixed(l, prefix)))
  {
    if l != [] {
      DistinctValsTail(l);
      KeepPrefixedDistinct(l[1..], prefix);
      if StartsWith(l[0].val, prefix) {
        DistinctValsCons(l[0], KeepPrefixed(l[1..], prefix));
      }
    }
  }
}
