/**
 Naming the next version of every image: names are split at a separator, the highest
 number per base name is found, and the number after it makes the new name.
 */
module VersionNames {
  import opened Basics
  import opened Text

  /** strings.Split at a single character. */
  function Split(s: string, c: char): (f: seq<string>)
    ensures f != []
  {
    if s == [] then [""] else
    var f, x := Split(s[..|s| - 1], c), s[|s| - 1];
    if x == c then f + [""] else f[..|f| - 1] + [f[|f| - 1] + [x]]
  }

  /** strings.Join with a single character. */
  function Join(f: seq<string>, c: char): string {
    if f == [] then "" else if |f| == 1 then f[0] else Join(f[..|f| - 1], c) + [c] + f[|f| - 1]
  }

  lemma JoinLast(f: seq<string>, last: string, c: char)
    ensures f != [] ==> Join(f + [last], c) == Join(f, c) + [c] + last
    ensures f == [] ==> Join(f + [last], c) == last
  {
    assert (f + [last])[..|f|] == f;
  }

  lemma JoinLonger(f: seq<string>, x: char, c: char, n: nat)
    requires |f| == n + 1
    ensures Join(f[..n] + [f[n] + [x]], c) == Join(f, c) + [x]
  {
    var front, last := f[..n], f[n];
    assert f == front + [last];
    JoinLast(front, last, c);
    JoinLast(front, last + [x], c);
  }

  /** Joining what was split gives the name back. */
  lemma {:induction false} JoinOfSplit(s: string, c: char)
    ensures Join(Split(s, c), c) == s
  {
    if s != [] {
      var f, x := Split(s[..|s| - 1], c), s[|s| - 1];
      JoinOfSplit(s[..|s| - 1], c);
      assert s == s[..|s| - 1] + [x];
      if x == c {
        JoinLast(f, "", c);
      } else {
        JoinLonger(f, x, c, |f| - 1);
      }
    }
  }

  /** A name made of a base, the separator and a last field without it is split there. */
  lemma {:induction false} SplitAtLast(base: string, c: char, last: string)
    requires c !in last
    ensures Split(base + [c] + last, c) == Split(base, c) + [last]
  {
    var s := base + [c] + last;
    if last == [] {
      assert s[..|s| - 1] == base;
    } else {
      var n := |last| - 1;
      SplitAtLast(base, c, last[..n]);
      assert s[..|s| - 1] == base + [c] + last[..n];
      assert last == last[..n] + [last[n]];
      assert last[n] in last;
    }
  }

  /** The base and number of a versioned name. */
  function Versioned(name: string, c: char): Option<(string, nat)> {
    var f := Split(name, c);
    if |f| < 2 then None else
    match ParseUint(f[|f| - 1])
    case None => None
    case Some(v) => Some((Join(f[..|f| - 1], c), v))
  }

  function NameOf(base: string, c: char, version: nat): string {
    base + [c] + Decimal(version)
  }

  /** Printing a versioned name and reading it back. */
  lemma VersionedOfName(base: string, c: char, v: nat)
    requires !IsDigit(c) && v < TWO_TO_THE_64
    ensures Versioned(NameOf(base, c, v), c) == Some((base, v))
  {
    DecimalIsDigits(v);
    ParseOfDecimal(v);
    assert c !in Decimal(v);
    SplitAtLast(base, c, Decimal(v));
    var f := Split(base, c) + [Decimal(v)];
    assert f[..|f| - 1] == Split(base, c);
    JoinOfSplit(base, c);
  }

  /** The name is a base, the separator and a 64-bit number in digits. */
  ghost predicate IsVersion(name: string, c: char, base: string, v: nat, digits: string) {
    && name == base + [c] + digits
    && digits != "" && AllDigits(digits) && DigitsValue(digits) == v < TWO_TO_THE_64
  }

  /** What is a versioned name, and of which base and number. */
  lemma VersionedIff(name: string, c: char, base: string, v: nat)
    requires !IsDigit(c)
    ensures Versioned(name, c) == Some((base, v)) <==> exists digits :: IsVersion(name, c, base, v, digits)
  {
    if Versioned(name, c) == Some((base, v)) {
      var f := Split(name, c);
      var front, last := f[..|f| - 1], f[|f| - 1];
      JoinOfSplit(name, c);
      JoinLast(front, last, c);
      assert f == front + [last];
      assert IsVersion(name, c, base, v, last);
    }
    forall digits | IsVersion(name, c, base, v, digits)
      ensures Versioned(name, c) == Some((base, v))
    {
      assert c !in digits;
      SplitAtLast(base, c, digits);
      var f := Split(base, c) + [digits];
      assert f[..|f| - 1] == Split(base, c);
      JoinOfSplit(base, c);
    }
  }

  // ---------------------------------------------------------------- The highest versions

  function VersionsOf(names: seq<string>, c: char): seq<Option<(string, nat)>> {
    seq(|names|, i requires 0 <= i < |names| => Versioned(names[i], c))
  }

  /** m gives every base that occurs its highest number, and nothing else. */
  ghost predicate IsHighestOf(l: seq<Option<(string, nat)>>, m: map<string, nat>) {
    && (forall i :: 0 <= i < |l| && l[i].Some? ==> l[i].value.0 in m && l[i].value.1 <= m[l[i].value.0])
    && (forall base :: base in m ==> Some((base, m[base])) in l)
  }

  ghost predicate IsHighest(names: seq<string>, c: char, m: map<string, nat>) {
    IsHighestOf(VersionsOf(names, c), m)
  }

  method HighestVersions(names: seq<string>, c: char) returns (m: map<string, nat>)
    ensures IsHighest(names, c, m)
    ensures forall base :: base in m ==> m[base] < TWO_TO_THE_64
  {
    m := map[];
    for i := 0 to |names|
      invariant IsHighest(names[..i], c, m)
      invariant forall base :: base in m ==> m[base] < TWO_TO_THE_64
    {
      HighestOneMore(VersionsOf(names[..i], c), Versioned(names[i], c), m);
      assert VersionsOf(names[..i + 1], c) == VersionsOf(names[..i], c) + [Versioned(names[i], c)];
      var fields := Split(names[i], c);
      var nFields := |fields|;
      if nFields >= 2 {
        var lastField := fields[nFields - 1];
        var parsed := ParseUint(lastField);
        if parsed.Some? {
          var version := parsed.value;
          var base := Join(fields[..nFields - 1], c);
          var highest := if base in m then m[base] else 0;
          if version >= highest {
            m := m[base := version];
          }
        }
      }
    }
    assert names[..|names|] == names;
  }

  lemma HighestOneMore(l: seq<Option<(string, nat)>>, x: Option<(string, nat)>, m: map<string, nat>)
    requires IsHighestOf(l, m)
    ensures x.None? ==> IsHighestOf(l + [x], m)
    ensures x.Some? && x.value.0 in m && x.value.1 < m[x.value.0] ==> IsHighestOf(l + [x], m)
    ensures x.Some? && !(x.value.0 in m && x.value.1 < m[x.value.0]) ==>
      IsHighestOf(l + [x], m[x.value.0 := x.value.1])
  {
    assert forall y :: y in l ==> y in l + [x];
    assert (l + [x])[|l|] == x;
  }

  // ---------------------------------------------------------------- The new names

  /** The next number, in 64 bits. */
  function NextVersion(v: nat): nat {
    (v + 1) % TWO_TO_THE_64
  }

  function NewName(base: string, c: char, v: nat): string {
    NameOf(base, c, NextVersion(v))
  }

  /** The new name reads back as the next number of that base; behind the last one, as zero. */
  lemma NewNameIsNext(base: string, c: char, v: nat)
    requires !IsDigit(c) && v < TWO_TO_THE_64
    ensures Versioned(NewName(base, c, v), c) == Some((base, if v == TWO_TO_THE_64 - 1 then 0 else v + 1))
  {
    VersionedOfName(base, c, NextVersion(v));
  }

  /** The bases in some order, each once. */
  method ListBases(m: map<string, nat>) returns (bases: seq<string>)
    ensures forall base :: base in bases <==> base in m
    ensures forall i, j :: 0 <= i < j < |bases| ==> bases[i] != bases[j]
  {
    bases := [];
    var todo := m.Keys;
    while todo != {}
      invariant todo <= m.Keys
      invariant forall base :: base in bases <==> base in m && base !in todo
      invariant forall i, j :: 0 <= i < j < |bases| ==> bases[i] != bases[j]
    {
      var base :| base in todo;
      assert base !in bases && forall i :: 0 <= i < |bases| ==> bases[i] in bases;
      bases := bases + [base];
      todo := todo - {base};
    }
  }

  function NamesFor(bases: seq<string>, c: char, m: map<string, nat>): seq<string>
    requires forall i :: 0 <= i < |bases| ==> bases[i] in m
  {
    seq(|bases|, i requires 0 <= i < |bases| => NewName(bases[i], c, m[bases[i]]))
  }

  lemma NamesForAreNext(bases: seq<string>, c: char, m: map<string, nat>)
    requires !IsDigit(c)
    requires forall i :: 0 <= i < |bases| ==> bases[i] in m && m[bases[i]] < TWO_TO_THE_64
    requires forall i, j :: 0 <= i < j < |bases| ==> bases[i] != bases[j]
    ensures var news := NamesFor(bases, c, m);
      && (forall i :: 0 <= i < |news| ==>
            Versioned(news[i], c) == Some((bases[i], if m[bases[i]] == TWO_TO_THE_64 - 1 then 0 else m[bases[i]] + 1)))
      && (forall i, j :: 0 <= i < j < |news| ==> news[i] != news[j])
  {
    var news := NamesFor(bases, c, m);
    forall i | 0 <= i < |news|
      ensures Versioned(news[i], c) == Some((bases[i], if m[bases[i]] == TWO_TO_THE_64 - 1 then 0 else m[bases[i]] + 1))
    {
      NewNameIsNext(bases[i], c, m[bases[i]]);
    }
    forall i, j | 0 <= i < j < |news|
      ensures news[i] != news[j]
    {
      NewNamesDiffer(bases[i], m[bases[i]], bases[j], m[bases[j]], c);
    }
  }

  /** The names bulkAddReplaceImages asks for, one per base, in any order; all are different. */
  method NewNames(names: seq<string>, c: char) returns (m: map<string, nat>, bases: seq<string>, news: seq<string>)
    requires !IsDigit(c)
    ensures IsHighest(names, c, m)
    ensures |bases| == |news| && forall base :: base in bases <==> base in m
    ensures forall i :: 0 <= i < |news| ==> bases[i] in m && news[i] == NewName(bases[i], c, m[bases[i]])
    ensures forall i :: 0 <= i < |news| ==>
      Versioned(news[i], c) == Some((bases[i], if m[bases[i]] == TWO_TO_THE_64 - 1 then 0 else m[bases[i]] + 1))
    ensures forall i, j :: 0 <= i < j < |news| ==> news[i] != news[j]
  {
    m := HighestVersions(names, c);
    bases := ListBases(m);
    assert forall i :: 0 <= i < |bases| ==> bases[i] in bases;
    news := NamesFor(bases, c, m);
    NamesForAreNext(bases, c, m);
  }

  /**
   A new name is already taken exactly when the number wrapped around to zero and the list
   has the zeroth version.
   */
  lemma NewNameIsTakenIff(names: seq<string>, c: char, m: map<string, nat>, base: string)
    requires !IsDigit(c) && IsHighest(names, c, m) && base in m && m[base] < TWO_TO_THE_64
    ensures NewName(base, c, m[base]) in names <==>
      m[base] == TWO_TO_THE_64 - 1 && NameOf(base, c, 0) in names
  {
    var v := NextVersion(m[base]);
    VersionedOfName(base, c, v);
    if NameOf(base, c, v) in names {
      var i :| 0 <= i < |names| && names[i] == NameOf(base, c, v);
      assert VersionsOf(names, c)[i] == Some((base, v));
    }
  }

  lemma HighestOfTwo(base: string, c: char, v: nat, w: nat)
    requires !IsDigit(c) && w <= v < TWO_TO_THE_64
    ensures IsHighest([NameOf(base, c, v), NameOf(base, c, w)], c, map[base := v])
  {
    VersionedOfName(base, c, v);
    VersionedOfName(base, c, w);
    var l := VersionsOf([NameOf(base, c, v), NameOf(base, c, w)], c);
    assert l == [Some((base, v)), Some((base, w))];
  }

  /** It happens: behind the last number that fits, the new name is that of the version zero in the list. */
  lemma LastVersionTakesAnOldName(base: string, c: char)
    requires !IsDigit(c)
    ensures var last := TWO_TO_THE_64 - 1;
      var names := [NameOf(base, c, last), NameOf(base, c, 0)];
      IsHighest(names, c, map[base := last]) && NewName(base, c, last) in names
  {
    var last := TWO_TO_THE_64 - 1;
    HighestOfTwo(base, c, last, 0);
    assert NextVersion(last) == 0;
    assert NewName(base, c, last) == [NameOf(base, c, last), NameOf(base, c, 0)][1];
  }

  /** Different bases get different names. */
  lemma NewNamesDiffer(base: string, v: nat, base': string, v': nat, c: char)
    requires !IsDigit(c) && base != base'
    ensures NewName(base, c, v) != NewName(base', c, v')
  {
    VersionedOfName(base, c, NextVersion(v));
    VersionedOfName(base', c, NextVersion(v'));
  }

  lemma DigitsBehind(a: string, c: char, d: string)
    requires AllDigits(d)
    ensures (a + [c] + d)[|a|] == c
    ensures forall i :: |a| < i < |a + [c] + d| ==> IsDigit((a + [c] + d)[i])
  {
  }

  /** The last character that is no digit is the separator. */
  lemma LastNonDigit(a: string, c: char, d: string, a': string, c': char, d': string)
    requires AllDigits(d) && AllDigits(d') && !IsDigit(c) && !IsDigit(c')
    requires a + [c] + d == a' + [c'] + d'
    ensures c == c'
  {
    DigitsBehind(a, c, d);
    DigitsBehind(a', c', d');
  }

  /** The passes for "/" and for "." never ask for the same name. */
  lemma PassesNeverCollide(base: string, v: nat, base': string, v': nat)
    ensures NewName(base, '/', v) != NewName(base', '.', v')
  {
    DecimalIsDigits(NextVersion(v));
    DecimalIsDigits(NextVersion(v'));
    if NewName(base, '/', v) == NewName(base', '.', v') {
      LastNonDigit(base, '/', Decimal(NextVersion(v)), base', '.', Decimal(NextVersion(v')));
    }
  }

  // ---------------------------------------------------------------- The old names

  /** Digits without needless zeros in front. */
  predicate Canonical(s: string) {
    s != [] && AllDigits(s) && (s[0] == '0' ==> |s| == 1)
  }

  lemma {:induction false} LeadingDigitCounts(s: string)
    requires s != [] && AllDigits(s) && s[0] != '0'
    ensures DigitsValue(s) > 0
  {
    if |s| > 1 {
      LeadingDigitCounts(s[..|s| - 1]);
    } else {
      assert s[..0] == [];
    }
  }

  lemma DigitIsDecimal(c: char)
    requires IsDigit(c)
    ensures '0' + ((c - '0') as nat) as char == c && (c - '0') as nat < 10
  {
  }

  lemma DecimalAppend(n: nat, d: nat)
    requires n > 0 && d < 10
    ensures Decimal(10 * n + d) == Decimal(n) + ['0' + d as char]
  {
    assert (10 * n + d) / 10 == n && (10 * n + d) % 10 == d;
  }

  lemma {:induction false} CanonicalIsDecimal(s: string)
    requires Canonical(s)
    ensures Decimal(DigitsValue(s)) == s
  {
    var n := |s| - 1;
    var front, c := s[..n], s[n];
    DigitIsDecimal(c);
    assert s == front + [c];
    if n == 0 {
      assert DigitsValue(front) == 0;
    } else {
      CanonicalIsDecimal(front);
      LeadingDigitCounts(front);
      DecimalAppend(DigitsValue(front), (c - '0') as nat);
    }
  }

  lemma {:induction false} DecimalIsCanonical(n: nat)
    ensures Canonical(Decimal(n)) && (n > 0 ==> Decimal(n)[0] != '0')
  {
    DecimalIsDigits(n);
    if n >= 10 {
      DecimalIsCanonical(n / 10);
    }
  }

  function LastField(name: string, c: char): string {
    var f := Split(name, c);
    f[|f| - 1]
  }

  /**
   The image the new one is made from is looked up under the number in plain decimal. It is
   in the list exactly if some entry of that base and number is written without leading
   zeros.
   */
  lemma OldNameIsListedIff(names: seq<string>, c: char, base: string, v: nat)
    requires !IsDigit(c) && v < TWO_TO_THE_64
    ensures NameOf(base, c, v) in names <==>
      exists i :: 0 <= i < |names| && Versioned(names[i], c) == Some((base, v)) && Canonical(LastField(names[i], c))
  {
    VersionedOfName(base, c, v);
    DecimalIsCanonical(v);
    DecimalIsDigits(v);
    SplitAtLast(base, c, Decimal(v));
    if NameOf(base, c, v) in names {
      var i :| 0 <= i < |names| && names[i] == NameOf(base, c, v);
      assert Canonical(LastField(names[i], c));
    }
    forall i | 0 <= i < |names| && Versioned(names[i], c) == Some((base, v)) && Canonical(LastField(names[i], c))
      ensures names[i] == NameOf(base, c, v)
    {
      var f := Split(names[i], c);
      JoinOfSplit(names[i], c);
      CanonicalIsDecimal(f[|f| - 1]);
    }
  }

  lemma {:induction false} SplitOneField(s: string, c: char)
    requires c !in s
    ensures Split(s, c) == [s]
  {
    if s != [] {
      SplitOneField(s[..|s| - 1], c);
      assert s[|s| - 1] in s;
      assert s == s[..|s| - 1] + [s[|s| - 1]];
    }
  }

  /** With leading zeros only, the old name does not exist. */
  lemma LeadingZerosLoseTheOldName()
    ensures Versioned("a/01", '/') == Some(("a", 1)) && NameOf("a", '/', 1) !in ["a/01"]
  {
    assert "a/01" == "a" + ['/'] + "01";
    SplitAtLast("a", '/', "01");
    SplitOneField("a", '/');
    var f := Split("a/01", '/');
    assert f == ["a", "01"] && f[..1] == ["a"];
    assert "01"[..1] == "0" && "0"[..0] == "";
    assert DigitsValue("01") == 1;
    assert |NameOf("a", '/', 1)| == 3;
  }
}
