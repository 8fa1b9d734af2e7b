/** String operations of JavaScript that the tool relies on, over `string` (a `seq<char>`). */
module Text {

  /** `s.startsWith(t)` */
  predicate StartsWith(s: string, t: string) {
    |t| <= |s| && s[..|t|] == t
  }

  /** `s.endsWith(t)` */
  predicate EndsWith(s: string, t: string) {
    |t| <= |s| && s[|s| - |t|..] == t
  }

  /** `s.includes(t)`: `t` occurs in `s` at some position. */
  predicate Contains(s: string, t: string) {
    exists i :: 0 <= i <= |s| - |t| && OccursAt(s, t, i)
  }

  /** `t` occurs in `s` starting at index `i`. */
  predicate OccursAt(s: string, t: string, i: int)
    requires 0 <= i <= |s| - |t|
  {
    s[i..i + |t|] == t
  }

  /** A prefix of a string stays a prefix of any extension of it. */
  lemma StartsWithExtends(s: string, t: string, u: string)
    requires StartsWith(s, t)
    ensures StartsWith(s + u, t)
  {
    assert (s + u)[..|t|] == s[..|t|];
  }

  /** An occurrence of an occurrence is an occurrence. */
  lemma ContainsTransitive(s: string, t: string, u: string)
    requires Contains(s, t) && Contains(t, u)
    ensures Contains(s, u)
  {
    var i :| 0 <= i <= |s| - |t| && OccursAt(s, t, i);
    var j :| 0 <= j <= |t| - |u| && OccursAt(t, u, j);
    forall k | 0 <= k < |u| ensures s[i + j + k] == u[k] {
      assert t[j + k] == s[i..i + |t|][j + k];
      assert u[k] == t[j..j + |u|][k];
    }
    assert s[i + j..i + j + |u|] == u;
    assert OccursAt(s, u, i + j);
  }

  /** One differing character rules out a prefix. */
  lemma DiffersAt(s: string, t: string, i: nat)
    requires i < |t| && i < |s| && s[i] != t[i]
    ensures !StartsWith(s, t)
  {
    if |t| <= |s| {
      assert s[..|t|][i] == s[i];
    }
  }

  /** One differing character, counted from the end, rules out a suffix. */
  lemma DiffersFromEnd(s: string, t: string, i: nat)
    requires i < |t| && i < |s| && s[|s| - 1 - i] != t[|t| - 1 - i]
    ensures !EndsWith(s, t)
  {
    if |t| <= |s| {
      assert s[|s| - |t|..][|t| - 1 - i] == s[|s| - 1 - i];
    }
  }

  /** A string whose first character does not occur in `s` does not occur in `s`. */
  lemma FirstCharAbsent(s: string, t: string)
    requires |t| >= 1 && t[0] !in s
    ensures !Contains(s, t)
  {
    forall i | 0 <= i <= |s| - |t| ensures !OccursAt(s, t, i) {
      assert s[i..i + |t|][0] == s[i];
    }
  }

  /** `s.replace(/from/g, to)` for a single character. */
  function ReplaceChar(s: string, from: char, to: char): (r: string)
    ensures |r| == |s|
    ensures from != to ==> from !in r
  {
    seq(|s|, i requires 0 <= i < |s| => if s[i] == from then to else s[i])
  }

  /** Replacing a character twice changes nothing more than replacing it once. */
  lemma ReplaceCharIdempotent(s: string, from: char, to: char)
    ensures ReplaceChar(ReplaceChar(s, from, to), from, to) == ReplaceChar(s, from, to)
  {
  }

  /** A string without the character is left as it is. */
  lemma ReplaceCharAbsent(s: string, from: char, to: char)
    requires from !in s
    ensures ReplaceChar(s, from, to) == s
  {
  }

  /** `s.split(d)` for a one-character separator `d`: the pieces between separators, in order.
      Like JavaScript, the empty string splits into one empty piece. */
  function Split(s: string, d: char): (r: seq<string>)
    ensures |r| >= 1
    ensures forall k :: 0 <= k < |r| ==> d !in r[k]
    decreases |s|
  {
    if s == [] then [""]
    else
      var rest := Split(s[1..], d);
      if s[0] == d then [""] + rest
      else [[s[0]] + rest[0]] + rest[1..]
  }

  /** `parts.join(d)`, the inverse of `Split`. */
  function Join(parts: seq<string>, d: char): string {
    if parts == [] then ""
    else if |parts| == 1 then parts[0]
    else parts[0] + [d] + Join(parts[1..], d)
  }

  /** Joining the pieces of a split gives back the original string. */
  lemma {:induction false} JoinSplit(s: string, d: char)
    ensures Join(Split(s, d), d) == s
    decreases |s|
  {
    if s != [] {
      var rest := Split(s[1..], d);
      JoinSplit(s[1..], d);
      if s[0] == d {
        assert Split(s, d) == [""] + rest;
      } else {
        var r := Split(s, d);
        assert r == [[s[0]] + rest[0]] + rest[1..];
        if |rest| == 1 {
          assert Join(r, d) == [s[0]] + rest[0];
        } else {
          assert Join(rest, d) == rest[0] + [d] + Join(rest[1..], d);
          assert r[1..] == rest[1..];
          assert Join(r, d) == [s[0]] + rest[0] + [d] + Join(rest[1..], d);
        }
        assert [s[0]] + s[1..] == s;
      }
    }
  }

  /** A prefix free of the separator sticks to the first piece of what follows it. */
  lemma {:induction false} SplitPrefix(w: string, tail: string, d: char)
    requires d !in w
    ensures Split(w + tail, d) == [w + Split(tail, d)[0]] + Split(tail, d)[1..]
    decreases |w|
  {
    var r := Split(tail, d);
    if w != [] {
      var x, w' := w[0], w[1..];
      assert w + tail == [x] + (w' + tail) by {
        assert w == [x] + w';
        AppendAssoc([x], w', tail);
      }
      SplitPrefix(w', tail, d);
      SplitHead(x, w' + tail, d);
      assert [x] + (w' + r[0]) == w + r[0] by {
        assert w == [x] + w';
        AppendAssoc([x], w', r[0]);
      }
    } else {
      assert w + tail == tail;
      assert w + r[0] == r[0];
      assert [r[0]] + r[1..] == r;
    }
  }

  /** A string free of the separator is one piece. */
  lemma SplitWithout(w: string, d: char)
    requires d !in w
    ensures Split(w, d) == [w]
  {
    SplitPrefix(w, "", d);
    assert w + "" == w;
  }

  lemma AppendAssoc<T>(x: seq<T>, y: seq<T>, z: seq<T>)
    ensures (x + y) + z == x + (y + z)
  {
  }

  /** `Split` one character at a time. */
  lemma SplitHead(x: char, rest: string, d: char)
    ensures Split([x] + rest, d)
         == if x == d then [""] + Split(rest, d)
            else [[x] + Split(rest, d)[0]] + Split(rest, d)[1..]
  {
    assert ([x] + rest)[0] == x;
    assert ([x] + rest)[1..] == rest;
  }

  /** A separator between two strings splits them apart: the pieces of the first, then the
      pieces of the second. */
  lemma {:induction false} SplitAround(a: string, b: string, d: char)
    ensures Split(a + [d] + b, d) == Split(a, d) + Split(b, d)
    decreases |a|
  {
    var rb := Split(b, d);
    if a == [] {
      assert a + [d] + b == [d] + b;
      SplitHead(d, b, d);
    } else {
      var x, a' := a[0], a[1..];
      var rest := a' + [d] + b;
      assert a + [d] + b == [x] + rest by {
        assert a == [x] + a';
        AppendAssoc([x], a', [d]);
        AppendAssoc([x], a' + [d], b);
      }
      assert a == [x] + a';
      SplitAround(a', b, d);
      SplitConsAppend(x, a', rest, rb, d);
    }
  }

  /** One step of `SplitAround`: a character in front of both sides. */
  lemma SplitConsAppend(x: char, a: string, rest: string, rb: seq<string>, d: char)
    requires Split(rest, d) == Split(a, d) + rb
    ensures Split([x] + rest, d) == Split([x] + a, d) + rb
  {
    var ra := Split(a, d);
    SplitHead(x, rest, d);
    SplitHead(x, a, d);
    if x != d {
      assert (ra + rb)[0] == ra[0];
      assert (ra + rb)[1..] == ra[1..] + rb;
      AppendAssoc([[x] + ra[0]], ra[1..], rb);
    } else {
      AppendAssoc([""], ra, rb);
    }
  }

  /** Splitting a join of separator-free pieces gives back the pieces. */
  lemma {:induction false} SplitJoin(parts: seq<string>, d: char)
    requires |parts| >= 1
    requires forall k :: 0 <= k < |parts| ==> d !in parts[k]
    ensures Split(Join(parts, d), d) == parts
  {
    if |parts| == 1 {
      SplitPrefix(parts[0], "", d);
      assert parts[0] + "" == parts[0];
    } else {
      var x := Join(parts[1..], d);
      SplitJoin(parts[1..], d);
      SplitPrefix(parts[0], [d] + x, d);
      assert parts[0] + [d] + x == parts[0] + ([d] + x);
      assert ([d] + x)[1..] == x;
      assert Split([d] + x, d) == [""] + Split(x, d);
      assert parts[0] + "" == parts[0];
      assert [parts[0]] + parts[1..] == parts;
    }
  }

  /** The concatenation of a list of strings, as successive appends to one file produce it. */
  function Concat(ss: seq<string>): string {
    if ss == [] then "" else ss[0] + Concat(ss[1..])
  }

  lemma {:induction false} ConcatAppend(a: seq<string>, b: seq<string>)
    ensures Concat(a + b) == Concat(a) + Concat(b)
  {
    if a != [] {
      ConcatAppend(a[1..], b);
      assert (a + b)[1..] == a[1..] + b;
    } else {
      assert a + b == b;
    }
  }

  /** `s.filter(f)`: the elements satisfying `f`, in their original order. */
  function Filter(f: string -> bool, s: seq<string>): (r: seq<string>)
    ensures |r| <= |s|
    ensures forall x :: x in r <==> x in s && f(x)
  {
    if s == [] then []
    else (if f(s[0]) then [s[0]] else []) + Filter(f, s[1..])
  }

  /** Filtering distributes over concatenation, so the kept elements keep their order. */
  lemma {:induction false} FilterAppend(f: string -> bool, a: seq<string>, b: seq<string>)
    ensures Filter(f, a + b) == Filter(f, a) + Filter(f, b)
  {
    if a != [] {
      var h := if f(a[0]) then [a[0]] else [];
      FilterAppend(f, a[1..], b);
      assert (a + b)[1..] == a[1..] + b;
      assert (a + b)[0] == a[0];
      AppendAssoc(h, Filter(f, a[1..]), Filter(f, b));
    } else {
      assert a + b == b;
    }
  }
}
