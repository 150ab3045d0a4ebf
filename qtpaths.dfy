/**
 * The string operations the material panel borrows from Qt: the path
 * decomposition of QFileInfo (fileName, path, suffix, completeBaseName),
 * QString::number for a non-negative counter, and QString::split with
 * SkipEmptyParts.  Paths are plain character sequences; no separator
 * normalisation is modelled.
 */
module QtPaths {

  /** Index of the last occurrence of `c` in `s`, or -1 (QString::lastIndexOf). */
  function LastIndex(s: string, c: char): (k: int)
    ensures -1 <= k < |s|
    ensures k >= 0 ==> s[k] == c
    decreases |s|
  {
    if |s| == 0 then -1
    else if s[|s| - 1] == c then |s| - 1
    else LastIndex(s[..|s| - 1], c)
  }

  /** No `c` follows the one LastIndex finds. */
  lemma {:induction false} LastIndexIsLast(s: string, c: char)
    ensures forall i :: LastIndex(s, c) < i < |s| ==> s[i] != c
    decreases |s|
  {
    if |s| > 0 && s[|s| - 1] != c {
      LastIndexIsLast(s[..|s| - 1], c);
      assert forall i :: 0 <= i < |s| - 1 ==> s[..|s| - 1][i] == s[i];
    }
  }

  /** The last `c` of `x + [c] + y` is the one between them when `y` holds none. */
  lemma LastIndexAfter(x: string, c: char, y: string)
    requires c !in y
    ensures LastIndex(x + [c] + y, c) == |x|
  {
    var s := x + [c] + y;
    var k := LastIndex(s, c);
    assert s[|x|] == c;
    LastIndexIsLast(s, c);
  }

  /** QFileInfo::fileName: everything after the last '/', or the whole path without one. */
  function FileName(p: string): string
  {
    var k := LastIndex(p, '/');
    if k < 0 then p else p[k + 1..]
  }

  /** A file name holds no separator. */
  lemma FileNameHasNoSlash(p: string)
    ensures '/' !in FileName(p)
  {
    var k := LastIndex(p, '/');
    LastIndexIsLast(p, '/');
    assert forall i :: 0 <= i < |FileName(p)| ==> FileName(p)[i] == p[k + 1 + i];
  }

  /** QFileInfo::path: "." without a separator, "/" for a leading one only,
      otherwise everything before the last '/'. */
  function PathOf(p: string): (d: string)
    ensures |d| > 0
  {
    var k := LastIndex(p, '/');
    if k < 0 then "." else if k == 0 then "/" else p[..k]
  }

  /** The suffix of a bare file name: what follows its last '.', or "". */
  function NameSuffix(n: string): string
  {
    var d := LastIndex(n, '.');
    if d < 0 then "" else n[d + 1..]
  }

  /** The complete base name of a bare file name: what precedes its last '.'. */
  function NameBase(n: string): string
  {
    var d := LastIndex(n, '.');
    if d < 0 then n else n[..d]
  }

  /** QFileInfo::suffix. */
  function Suffix(p: string): string
  {
    NameSuffix(FileName(p))
  }

  /** QFileInfo::completeBaseName. */
  function CompleteBaseName(p: string): string
  {
    NameBase(FileName(p))
  }

  /** The suffix holds no dot, and neither part of a bare name holds a separator. */
  lemma NamePartsClean(n: string)
    ensures '.' !in NameSuffix(n)
    ensures '/' !in n ==> '/' !in NameSuffix(n) && '/' !in NameBase(n)
  {
    var d := LastIndex(n, '.');
    LastIndexIsLast(n, '.');
    var s := NameSuffix(n);
    assert forall i :: 0 <= i < |s| ==> s[i] == n[d + 1 + i];
    var b := NameBase(n);
    assert forall i :: 0 <= i < |b| ==> b[i] == n[i];
  }

  /** The suffix and complete base name of a path hold no separator, and the suffix no dot. */
  lemma PathPartsClean(p: string)
    ensures '.' !in Suffix(p) && '/' !in Suffix(p) && '/' !in CompleteBaseName(p)
  {
    FileNameHasNoSlash(p);
    NamePartsClean(FileName(p));
  }

  /** A file name is its complete base name, a dot and its suffix, or, with no dot, its base name alone. */
  lemma NameSplitsAtLastDot(n: string)
    ensures '.' in n ==> n == NameBase(n) + "." + NameSuffix(n)
    ensures '.' !in n ==> NameBase(n) == n && NameSuffix(n) == ""
  {
    var d := LastIndex(n, '.');
    LastIndexIsLast(n, '.');
    if '.' in n {
      var i :| 0 <= i < |n| && n[i] == '.';
      assert d >= i;
      assert n == n[..d] + [n[d]] + n[d + 1..];
    }
  }

  /** Joining a directory and a bare name, then taking the path apart again, gives both back. */
  lemma JoinedPath(dir: string, name: string)
    requires |dir| > 0 && '/' !in name
    ensures PathOf(dir + "/" + name) == dir
    ensures FileName(dir + "/" + name) == name
  {
    LastIndexAfter(dir, '/', name);
    assert dir + "/" + name == dir + ['/'] + name;
    assert (dir + "/" + name)[|dir| + 1..] == name;
  }

  /** The file name `b + "(" + tag + ")." + s` has suffix `s` and complete base name `b + "(" + tag + ")"`. */
  lemma TaggedName(b: string, tag: string, s: string)
    requires '.' !in s
    ensures NameSuffix(b + "(" + tag + ")." + s) == s
    ensures NameBase(b + "(" + tag + ")." + s) == b + "(" + tag + ")"
  {
    var head := b + "(" + tag + ")";
    assert b + "(" + tag + ")." + s == head + ['.'] + s;
    LastIndexAfter(head, '.', s);
    assert (head + ['.'] + s)[|head| + 1..] == s;
    assert (head + ['.'] + s)[..|head|] == head;
  }

  /** A tagged name placed in a directory keeps that directory, that name and that suffix. */
  lemma TaggedPath(dir: string, b: string, tag: string, s: string)
    requires |dir| > 0 && '/' !in b && '/' !in tag && '/' !in s && '.' !in s
    ensures PathOf(dir + "/" + b + "(" + tag + ")." + s) == dir
    ensures FileName(dir + "/" + b + "(" + tag + ")." + s) == b + "(" + tag + ")." + s
    ensures Suffix(dir + "/" + b + "(" + tag + ")." + s) == s
  {
    var tail := b + "(" + tag + ")." + s;
    assert '/' !in tail;
    assert dir + "/" + b + "(" + tag + ")." + s == dir + "/" + tail;
    JoinedPath(dir, tail);
    TaggedName(b, tag, s);
  }

  /** A string of decimal digits holds no '/'. */
  lemma DigitsHaveNoSlash(t: string)
    requires AllDigits(t)
    ensures '/' !in t
  {
  }

  /** Tagging a file name makes it longer, so never gives the name back. */
  lemma TaggedNameLonger(n: string, tag: string)
    ensures |NameBase(n) + "(" + tag + ")." + NameSuffix(n)| > |n|
  {
    NameSplitsAtLastDot(n);
  }

  /** Two tagged names with the same base and suffix are equal only with equal tags. */
  lemma TaggedNameInjective(b: string, t1: string, t2: string, s: string)
    requires b + "(" + t1 + ")." + s == b + "(" + t2 + ")." + s
    ensures t1 == t2
  {
    var x1, x2 := b + "(" + t1 + ")." + s, b + "(" + t2 + ")." + s;
    assert |t1| == |t2|;
    assert x1[|b| + 1..|b| + 1 + |t1|] == t1;
    assert x2[|b| + 1..|b| + 1 + |t2|] == t2;
  }

  /** A name with one dot before a dot-free suffix splits at that dot. */
  lemma DottedName(b: string, s: string)
    requires '.' !in s
    ensures NameSuffix(b + "." + s) == s && NameBase(b + "." + s) == b
  {
    assert b + "." + s == b + ['.'] + s;
    LastIndexAfter(b, '.', s);
    assert (b + ['.'] + s)[|b| + 1..] == s;
    assert (b + ['.'] + s)[..|b|] == b;
  }

  /** Every character of `s` is a decimal digit. */
  predicate AllDigits(s: string)
  {
    forall i :: 0 <= i < |s| ==> '0' <= s[i] <= '9'
  }

  /** The decimal digit for 0..9. */
  function Digit(d: nat): (c: char)
    requires d < 10
    ensures '0' <= c <= '9'
  {
    (48 + d) as char
  }

  /** QString::number for a non-negative integer: its decimal digits, most significant first. */
  function NumStr(n: nat): (s: string)
    ensures |s| > 0
  {
    if n < 10 then [Digit(n)] else NumStr(n / 10) + [Digit(n % 10)]
  }

  /** QString::number writes decimal digits only. */
  lemma {:induction false} NumStrDigits(n: nat)
    ensures AllDigits(NumStr(n))
  {
    if n >= 10 {
      NumStrDigits(n / 10);
    }
  }

  /** The value of a string of decimal digits. */
  function DigitsValue(s: string): nat
    requires AllDigits(s)
  {
    if s == [] then 0 else DigitsValue(s[..|s| - 1]) * 10 + (s[|s| - 1] as int - 48)
  }

  /** Reading back the digits QString::number wrote gives the number: distinct counters give distinct strings. */
  lemma {:induction false} NumStrValue(n: nat)
    ensures AllDigits(NumStr(n)) && DigitsValue(NumStr(n)) == n
  {
    NumStrDigits(n);
    if n >= 10 {
      NumStrValue(n / 10);
      var s := NumStr(n);
      assert s[..|s| - 1] == NumStr(n / 10);
    }
  }

  /** The longest prefix of `s` holding no `sep`. */
  function Word(s: string, sep: char): (w: string)
    ensures |w| <= |s| && w == s[..|w|]
    ensures sep !in w
    ensures |w| < |s| ==> s[|w|] == sep
  {
    if s == [] || s[0] == sep then [] else [s[0]] + Word(s[1..], sep)
  }

  /** QString::split(sep, SkipEmptyParts): the maximal runs of non-separator characters, in order. */
  function SplitSkipEmpty(s: string, sep: char): seq<string>
    decreases |s|
  {
    if s == [] then []
    else if s[0] == sep then SplitSkipEmpty(s[1..], sep)
    else
      var w := Word(s, sep);
      [w] + SplitSkipEmpty(s[|w|..], sep)
  }

  /** Every part of a split is non-empty and holds no separator. */
  lemma {:induction false} SplitPartsClean(s: string, sep: char)
    ensures forall p :: p in SplitSkipEmpty(s, sep) ==> |p| > 0 && sep !in p
    decreases |s|
  {
    if s != [] {
      if s[0] == sep {
        SplitPartsClean(s[1..], sep);
      } else {
        SplitPartsClean(s[|Word(s, sep)|..], sep);
      }
    }
  }

  /** QStringList::join(sep). */
  function Join(parts: seq<string>, sep: char): string
  {
    if |parts| == 0 then []
    else if |parts| == 1 then parts[0]
    else parts[0] + [sep] + Join(parts[1..], sep)
  }

  /** A separator-free prefix followed by a separator, or by nothing, is the first word. */
  lemma {:induction false} WordOfPrefix(w: string, rest: string, sep: char)
    requires sep !in w
    requires rest == [] || rest[0] == sep
    ensures Word(w + rest, sep) == w
  {
    if w != [] {
      assert (w + rest)[1..] == w[1..] + rest;
      WordOfPrefix(w[1..], rest, sep);
    }
  }

  /** A non-empty run without separators splits into itself alone. */
  lemma SplitWord(w: string, sep: char)
    requires |w| > 0 && sep !in w
    ensures SplitSkipEmpty(w, sep) == [w]
  {
    WordOfPrefix(w, [], sep);
    assert w + [] == w;
    assert w[|w|..] == [];
  }

  /** A string that starts with a non-separator splits into its first word and the split of the rest. */
  lemma SplitStep(s: string, sep: char)
    requires s != [] && s[0] != sep
    ensures SplitSkipEmpty(s, sep) == [Word(s, sep)] + SplitSkipEmpty(s[|Word(s, sep)|..], sep)
  {
  }

  /** Splitting at a separator splits each side on its own: the separator
      starts no part, and empty runs on either side of it give no part. */
  lemma {:induction false} SplitConcat(a: string, b: string, sep: char)
    ensures SplitSkipEmpty(a + [sep] + b, sep) == SplitSkipEmpty(a, sep) + SplitSkipEmpty(b, sep)
    decreases |a|
  {
    var s := a + [sep] + b;
    if a == [] {
      assert s[1..] == b;
    } else if a[0] == sep {
      assert s[1..] == a[1..] + [sep] + b;
      SplitConcat(a[1..], b, sep);
    } else {
      var tail := a[|Word(a, sep)|..];
      SplitConcat(tail, b, sep);
      SplitConcatWord(a, b, sep);
    }
  }

  /** The first word of `a` is also the first word of `a + [sep] + b`, and what follows it there is
      the rest of `a`, the separator and `b`. */
  lemma WordBeforeSeparator(a: string, b: string, sep: char)
    ensures var w := Word(a, sep);
            && Word(a + [sep] + b, sep) == w
            && (a + [sep] + b)[|w|..] == a[|w|..] + [sep] + b
  {
    var w := Word(a, sep);
    var tail := a[|w|..];
    var rest := tail + [sep] + b;
    assert a == w + tail;
    assert a + [sep] + b == w + rest;
    assert rest[0] == sep;
    WordOfPrefix(w, rest, sep);
  }

  /** SplitConcat for an `a` that starts with a word, given SplitConcat for what follows that word. */
  lemma SplitConcatWord(a: string, b: string, sep: char)
    requires a != [] && a[0] != sep
    requires var tail := a[|Word(a, sep)|..];
             SplitSkipEmpty(tail + [sep] + b, sep) == SplitSkipEmpty(tail, sep) + SplitSkipEmpty(b, sep)
    ensures SplitSkipEmpty(a + [sep] + b, sep) == SplitSkipEmpty(a, sep) + SplitSkipEmpty(b, sep)
  {
    var s := a + [sep] + b;
    var w := Word(a, sep);
    var tail := a[|w|..];
    var rest := tail + [sep] + b;
    WordBeforeSeparator(a, b, sep);
    assert SplitSkipEmpty(s, sep) == [w] + SplitSkipEmpty(rest, sep) by {
      SplitStep(s, sep);
    }
    assert SplitSkipEmpty(a, sep) == [w] + SplitSkipEmpty(tail, sep) by {
      SplitStep(a, sep);
    }
    ConsAppend(w, SplitSkipEmpty(tail, sep), SplitSkipEmpty(b, sep));
  }

  /** Putting an element in front of two joined sequences is putting it in front of the first. */
  lemma ConsAppend<T>(w: T, x: seq<T>, y: seq<T>)
    ensures [w] + (x + y) == ([w] + x) + y
  {
  }

  /** Splitting what was joined gives the parts back, when no part is empty or holds the separator. */
  lemma {:induction false} SplitJoin(parts: seq<string>, sep: char)
    requires forall p :: p in parts ==> |p| > 0 && sep !in p
    ensures SplitSkipEmpty(Join(parts, sep), sep) == parts
  {
    if |parts| == 1 {
      var p := parts[0];
      WordOfPrefix(p, [], sep);
      assert p + [] == p;
      assert p[|p|..] == [];
    } else if |parts| > 1 {
      var p := parts[0];
      var rest := Join(parts[1..], sep);
      var s := p + [sep] + rest;
      assert s == p + ([sep] + rest);
      WordOfPrefix(p, [sep] + rest, sep);
      assert s[|p|..] == [sep] + rest;
      assert ([sep] + rest)[1..] == rest;
      SplitJoin(parts[1..], sep);
      assert [p] + parts[1..] == parts;
    }
  }

  /** The UTF-16 code units QString stores for one character: the character
      itself inside the Basic Multilingual Plane, a surrogate pair above it. */
  function Utf16Units(c: char): (u: seq<int>)
    ensures |u| == 1 || |u| == 2
    ensures forall i :: 0 <= i < |u| ==> 0 <= u[i] < 0x10000
  {
    var v := c as int;
    if v < 0x10000 then [v]
    else [0xD800 + (v - 0x10000) / 0x400, 0xDC00 + (v - 0x10000) % 0x400]
  }

  /** The UTF-16 form of a string. */
  function Utf16(s: string): seq<int>
  {
    if s == [] then [] else Utf16Units(s[0]) + Utf16(s[1..])
  }

  /** Lexicographic order on code units; a proper prefix comes first. */
  predicate UnitsBelow(a: seq<int>, b: seq<int>)
    decreases |a|
  {
    |b| > 0 && (|a| == 0 || a[0] < b[0] || (a[0] == b[0] && UnitsBelow(a[1..], b[1..])))
  }

  /** QString's operator<: code-unit order on the UTF-16 forms. */
  predicate QStringLess(a: string, b: string)
  {
    UnitsBelow(Utf16(a), Utf16(b))
  }

  /** No code-unit sequence is below itself. */
  lemma {:induction false} UnitsBelowIrreflexive(a: seq<int>)
    ensures !UnitsBelow(a, a)
    decreases |a|
  {
    if |a| > 0 {
      UnitsBelowIrreflexive(a[1..]);
    }
  }

  /** Code-unit order is transitive. */
  lemma {:induction false} UnitsBelowTransitive(a: seq<int>, b: seq<int>, c: seq<int>)
    requires UnitsBelow(a, b) && UnitsBelow(b, c)
    ensures UnitsBelow(a, c)
    decreases |a|
  {
    if |a| > 0 && a[0] == b[0] && b[0] == c[0] {
      UnitsBelowTransitive(a[1..], b[1..], c[1..]);
    }
  }

  /** QString's operator< is a strict order. */
  lemma QStringLessStrict(a: string, b: string, c: string)
    ensures !QStringLess(a, a)
    ensures QStringLess(a, b) && QStringLess(b, c) ==> QStringLess(a, c)
  {
    UnitsBelowIrreflexive(Utf16(a));
    if QStringLess(a, b) && QStringLess(b, c) {
      UnitsBelowTransitive(Utf16(a), Utf16(b), Utf16(c));
    }
  }

  /** Any two different code-unit sequences are ordered one way or the other. */
  lemma {:induction false} UnitsBelowTotal(a: seq<int>, b: seq<int>)
    requires a != b
    ensures UnitsBelow(a, b) || UnitsBelow(b, a)
    decreases |a|
  {
    if |a| > 0 && |b| > 0 && a[0] == b[0] {
      assert a == [a[0]] + a[1..] && b == [b[0]] + b[1..];
      UnitsBelowTotal(a[1..], b[1..]);
    }
  }

  /** The first code unit tells how many units the character takes, and the
      units give back the character: a unit of the Basic Multilingual Plane is
      never a surrogate, and a pair starts with a high surrogate. */
  lemma Utf16UnitsDecode(c: char)
    ensures var u := Utf16Units(c);
      (|u| == 1 <==> !(0xD800 <= u[0] < 0xDC00)) &&
      (|u| == 1 ==> c as int == u[0]) &&
      (|u| == 2 ==> c as int == 0x10000 + (u[0] - 0xD800) * 0x400 + (u[1] - 0xDC00))
  {
  }

  /** Different characters have different UTF-16 units. */
  lemma Utf16UnitsInjective(c: char, d: char)
    requires Utf16Units(c) == Utf16Units(d)
    ensures c == d
  {
    Utf16UnitsDecode(c);
    Utf16UnitsDecode(d);
  }

  /** Different strings have different UTF-16 forms. */
  lemma {:induction false} Utf16Injective(a: string, b: string)
    requires Utf16(a) == Utf16(b)
    ensures a == b
    decreases |a|
  {
    if a != [] && b != [] {
      var ua, ub := Utf16Units(a[0]), Utf16Units(b[0]);
      assert ua[0] == Utf16(a)[0] == Utf16(b)[0] == ub[0];
      Utf16UnitsDecode(a[0]);
      Utf16UnitsDecode(b[0]);
      assert ua == Utf16(a)[..|ua|] == Utf16(b)[..|ub|] == ub;
      assert Utf16(a[1..]) == Utf16(a)[|ua|..] == Utf16(b)[|ub|..] == Utf16(b[1..]);
      Utf16UnitsInjective(a[0], b[0]);
      Utf16Injective(a[1..], b[1..]);
      assert a == [a[0]] + a[1..] && b == [b[0]] + b[1..];
    }
  }

  /** QString's operator< orders any two different strings: it is a strict
      total order, so every map's keys have one ascending enumeration. */
  lemma QStringLessTotal(a: string, b: string)
    requires a != b
    ensures QStringLess(a, b) || QStringLess(b, a)
  {
    if Utf16(a) == Utf16(b) {
      Utf16Injective(a, b);
    }
    UnitsBelowTotal(Utf16(a), Utf16(b));
  }

  /** Every non-empty set of strings has a least element under QString's operator<. */
  lemma {:induction false} LeastExists(ks: set<string>)
    requires ks != {}
    ensures exists x :: x in ks && forall y :: y in ks && y != x ==> QStringLess(x, y)
    decreases |ks|
  {
    var y :| y in ks;
    if ks - {y} == {} {
      assert ks == {y};
    } else {
      LeastExists(ks - {y});
      var z :| z in ks - {y} && forall w :: w in ks - {y} && w != z ==> QStringLess(z, w);
      QStringLessTotal(y, z);
      if QStringLess(y, z) {
        forall w | w in ks && w != y
          ensures QStringLess(y, w)
        {
          if w != z {
            QStringLessStrict(y, z, w);
          }
        }
      } else {
        assert forall w :: w in ks && w != z ==> QStringLess(z, w);
      }
    }
  }

  /** The strings of `ks` in ascending QString order, the order a QMap keyed
      by them visits them: least first, then the rest. */
  ghost function AscendingOrder(ks: set<string>): (r: seq<string>)
    ensures forall i, j :: 0 <= i < j < |r| ==> QStringLess(r[i], r[j])
    ensures forall k :: k in r <==> k in ks
    decreases |ks|
  {
    if ks == {} then []
    else
      LeastExists(ks);
      var x :| x in ks && forall y :: y in ks && y != x ==> QStringLess(x, y);
      var rest := AscendingOrder(ks - {x});
      LeastThenRest(ks, x, rest);
      [x] + rest
  }

  /** The least element of `ks` followed by the rest in ascending order lists
      `ks` in ascending order. */
  lemma LeastThenRest(ks: set<string>, x: string, rest: seq<string>)
    requires x in ks && forall y :: y in ks && y != x ==> QStringLess(x, y)
    requires forall i, j :: 0 <= i < j < |rest| ==> QStringLess(rest[i], rest[j])
    requires forall k :: k in rest <==> k in ks - {x}
    ensures forall i, j :: 0 <= i < j < |[x] + rest| ==> QStringLess(([x] + rest)[i], ([x] + rest)[j])
    ensures forall k :: k in [x] + rest <==> k in ks
  {
    assert forall j :: 0 <= j < |rest| ==> rest[j] in rest && rest[j] in ks - {x};
  }

  /** In an ascending sequence the first element is below every later one, and
      the tail holds exactly the other elements. */
  lemma AscendingHeadTail(a: seq<string>, k: string)
    requires forall i, j :: 0 <= i < j < |a| ==> QStringLess(a[i], a[j])
    requires a != []
    ensures k in a && k != a[0] ==> QStringLess(a[0], k)
    ensures k in a[1..] <==> k in a && k != a[0]
  {
    if k in a[1..] {
      var i :| 1 <= i < |a| && a[i] == k;
      QStringLessStrict(a[0], a[0], a[0]);
    }
    if k in a && k != a[0] {
      var i :| 0 <= i < |a| && a[i] == k;
      assert a[1..][i - 1] == k;
    }
  }

  /** Two ascending sequences with the same elements are the same sequence. */
  lemma {:induction false} AscendingUnique(a: seq<string>, b: seq<string>)
    requires forall i, j :: 0 <= i < j < |a| ==> QStringLess(a[i], a[j])
    requires forall i, j :: 0 <= i < j < |b| ==> QStringLess(b[i], b[j])
    requires forall k :: k in a <==> k in b
    ensures a == b
    decreases |a|
  {
    assert b != [] ==> b[0] in b;
    assert a != [] ==> a[0] in a;
    if a != [] && b != [] {
      AscendingHeadTail(a, b[0]);
      AscendingHeadTail(b, a[0]);
      QStringLessStrict(a[0], b[0], a[0]);
      forall k
        ensures k in a[1..] <==> k in b[1..]
      {
        AscendingHeadTail(a, k);
        AscendingHeadTail(b, k);
      }
      AscendingUnique(a[1..], b[1..]);
      assert a == [a[0]] + a[1..] && b == [b[0]] + b[1..];
    }
  }

  /** Code-unit order is not code-point order: a character above the Basic
      Multilingual Plane, stored as a surrogate pair from 0xD800, sorts before
      U+FF01 although its code point is larger. */
  lemma SupplementaryBeforeHighBmp()
    ensures QStringLess("\U{1F600}", "\U{FF01}") && !QStringLess("\U{FF01}", "\U{1F600}")
  {
    assert Utf16("\U{1F600}") == [0xD83D, 0xDE00];
    assert Utf16("\U{FF01}") == [0xFF01];
  }
}
