/**
 * `locales_parse()` of help/locales.c: turns a colon-separated list of help
 * locales into the list of locales to try, in the order they are tried.
 * The colon-separated entries come first, in reverse order; then, for each
 * entry with a variant (`de_AT`), its base language (`de`) is appended
 * unless present; finally the default locale `"en"` is appended unless
 * present. `NULL` yields `NULL`.
 */
module Locales {
  import opened CTypes

  /** The default help locale, `GIMP_HELP_DEFAULT_LOCALE`. */
  const DefaultLocale: string := "en"

  /**
   * The entries of `s` in input order: every piece ended by a colon, then
   * the rest after the last colon when it is not empty.
   */
  function SplitColons(s: string): seq<string>
    decreases |s|
  {
    match Find(s, ':')
    case Some(p) => [s[..p]] + SplitColons(s[p + 1..])
    case None => if s == [] then [] else [s]
  }

  /** The entries joined back with colons. */
  function JoinColons(l: seq<string>): string
  {
    if l == [] then "" else if |l| == 1 then l[0] else l[0] + ":" + JoinColons(l[1..])
  }

  /** The colon that ends `s`, if any. */
  function FinalColon(s: string): string
  {
    if s != [] && s[|s| - 1] == ':' then ":" else ""
  }

  /** No entry holds a colon. */
  lemma {:induction false} SplitColonsEntries(s: string)
    ensures forall k :: 0 <= k < |SplitColons(s)| ==> ':' !in SplitColons(s)[k]
    decreases |s|
  {
    match Find(s, ':')
    case None =>
    case Some(p) =>
      SplitColonsEntries(s[p + 1..]);
  }

  /** A string without a colon is its own single entry, or no entry when empty. */
  lemma JoinNoColon(s: string)
    requires ':' !in s
    ensures s == JoinColons(SplitColons(s)) + FinalColon(s)
  {
    if s != [] {
      assert s[|s| - 1] in s;
    }
  }

  /** The step of `SplitColonsJoin` at a colon `p` that ends `s`. */
  lemma JoinAtLastColon(s: string, p: nat)
    requires Find(s, ':') == Some(p) && p + 1 == |s|
    ensures s == JoinColons(SplitColons(s)) + FinalColon(s)
  {
    assert SplitColons(s[p + 1..]) == [];
    assert SplitColons(s) == [s[..p]];
    SplitAt(s, p);
  }

  /** The step of `SplitColonsJoin` at a first colon `p` with more text after it. */
  lemma JoinAtInnerColon(s: string, p: nat)
    requires Find(s, ':') == Some(p) && p + 1 < |s|
    requires s[p + 1..] == JoinColons(SplitColons(s[p + 1..])) + FinalColon(s[p + 1..])
    ensures s == JoinColons(SplitColons(s)) + FinalColon(s)
  {
    var rest := s[p + 1..];
    SplitColonsNonEmpty(rest);
    JoinAtColon(s, p);
    FinalColonSuffix(s, p + 1);
    var joined := JoinColons(SplitColons(rest));
    calc {
      JoinColons(SplitColons(s)) + FinalColon(s);
    ==
      (s[..p] + ":" + joined) + FinalColon(rest);
    == { AppendAssoc(s[..p] + ":", joined, FinalColon(rest)); }
      s[..p] + ":" + (joined + FinalColon(rest));
    ==
      s[..p] + ":" + rest;
    == { SplitAt(s, p); assert [s[p]] == ":"; }
      s;
    }
  }

  /** A non-empty string has at least one entry. */
  lemma SplitColonsNonEmpty(s: string)
    requires s != []
    ensures SplitColons(s) != []
  {
    match Find(s, ':')
    case None =>
    case Some(q) =>
  }

  /** Joining puts back the colon after the first entry when more entries follow. */
  lemma JoinAtColon(s: string, p: nat)
    requires Find(s, ':') == Some(p) && SplitColons(s[p + 1..]) != []
    ensures JoinColons(SplitColons(s)) == s[..p] + ":" + JoinColons(SplitColons(s[p + 1..]))
  {
    var tail := SplitColons(s[p + 1..]);
    SplitColonsAt(s, p);
    JoinColonsCons(s[..p], tail);
  }

  /** The entries of `s` are the text before its first colon, then the entries after it. */
  lemma SplitColonsAt(s: string, p: nat)
    requires Find(s, ':') == Some(p)
    ensures SplitColons(s) == [s[..p]] + SplitColons(s[p + 1..])
  {
  }

  lemma JoinColonsCons(a: string, tail: seq<string>)
    requires tail != []
    ensures JoinColons([a] + tail) == a + ":" + JoinColons(tail)
  {
    assert ([a] + tail)[1..] == tail;
  }

  lemma FinalColonSuffix(s: string, k: nat)
    requires k < |s|
    ensures FinalColon(s[k..]) == FinalColon(s)
  {
    assert s[k..][|s| - k - 1] == s[|s| - 1];
  }

  lemma SplitAt<T>(s: seq<T>, p: nat)
    requires p < |s|
    ensures s == s[..p] + [s[p]] + s[p + 1..]
  {
  }

  lemma AppendAssoc<T>(a: seq<T>, b: seq<T>, c: seq<T>)
    ensures (a + b) + c == a + (b + c)
  {
  }

  /** Joining the entries with colons gives `s` back, less the colon that ends it if any. */
  lemma {:induction false} SplitColonsJoin(s: string)
    ensures s == JoinColons(SplitColons(s)) + FinalColon(s)
    decreases |s|
  {
    match Find(s, ':')
    case None =>
      JoinNoColon(s);
    case Some(p) =>
      if p + 1 == |s| {
        JoinAtLastColon(s, p);
      } else {
        SplitColonsJoin(s[p + 1..]);
        JoinAtInnerColon(s, p);
      }
  }

  function Reverse<T>(l: seq<T>): (r: seq<T>)
    ensures |r| == |l|
    ensures forall k :: 0 <= k < |l| ==> r[k] == l[|l| - 1 - k]
  {
    if l == [] then [] else Reverse(l[1..]) + [l[0]]
  }

  /** The base language of a locale with a variant: the part before the first `_`. */
  function Base(s: string): (b: string)
    requires '_' in s
    ensures '_' !in b && |b| < |s| && s[..|b|] == b && s[|b|] == '_'
  {
    s[..Find(s, '_').value]
  }

  /** The `strcmp` search loop: whether some entry of `list` equals `x`. */
  method Contains(list: seq<string>, x: string) returns (found: bool)
    ensures found <==> x in list
  {
    var i := 0;
    while i < |list|
      invariant 0 <= i <= |list|
      invariant x !in list[..i]
    {
      if list[i] == x {
        return true;
      }
      assert list[..i + 1] == list[..i] + [list[i]];
      i := i + 1;
    }
    assert list[..i] == list;
    return false;
  }

  /**
   * The split loop: the entries of `help`, each prepended as it is found;
   * `rest` is what follows the last colon found (the C pointer `s`).
   */
  method SplitPhase(help: string) returns (locales: seq<string>)
    ensures locales == Reverse(SplitColons(help))
  {
    locales := [];
    var rest := help;
    var p := Find(rest, ':');
    while p.Some?
      invariant p == Find(rest, ':')
      invariant Reverse(locales) + SplitColons(rest) == SplitColons(help)
      decreases |rest|
    {
      var piece := rest[..p.value];
      var after := rest[p.value + 1..];
      calc {
        Reverse([piece] + locales) + SplitColons(after);
      == { ReversePrepend(piece, locales); }
        (Reverse(locales) + [piece]) + SplitColons(after);
      == { AppendAssoc(Reverse(locales), [piece], SplitColons(after)); }
        Reverse(locales) + ([piece] + SplitColons(after));
      == { SplitColonsAt(rest, p.value); }
        SplitColons(help);
      }
      locales := [piece] + locales;
      rest := after;
      p := Find(rest, ':');
    }
    if rest != [] {
      assert SplitColons(rest) == [rest];
      ReversePrepend(rest, locales);
      locales := [rest] + locales;
    } else {
      assert SplitColons(rest) == [];
    }
    assert Reverse(locales) == SplitColons(help);
    ReverseReverse(locales);
  }

  /**
   * The base languages the loop appends after visiting the first `i`
   * entries, in the order it appends them: the base of each entry with a
   * variant, unless it is an entry or was appended before.
   */
  function NewBases(entries: seq<string>, i: int): (nb: seq<string>)
    requires 0 <= i <= |entries|
    ensures forall k :: 0 <= k < |nb| ==> '_' !in nb[k] && nb[k] !in entries
    decreases i
  {
    if i == 0 then []
    else
      var nb := NewBases(entries, i - 1);
      var e := entries[i - 1];
      if '_' in e && Base(e) !in entries + nb then nb + [Base(e)] else nb
  }

  /** Bases found by visiting earlier entries come before those found later. */
  lemma {:induction false} NewBasesInVisitOrder(entries: seq<string>, i: int, j: int)
    requires 0 <= i <= j <= |entries|
    ensures |NewBases(entries, i)| <= |NewBases(entries, j)|
    ensures NewBases(entries, j)[..|NewBases(entries, i)|] == NewBases(entries, i)
    decreases j - i
  {
    if i < j {
      NewBasesInVisitOrder(entries, i, j - 1);
      var nb := NewBases(entries, j - 1);
      assert NewBases(entries, j)[..|nb|] == nb;
    }
  }

  /** The base of every visited entry with a variant is an entry or an appended base. */
  lemma {:induction false} NewBasesCover(entries: seq<string>, i: int)
    requires 0 <= i <= |entries|
    ensures forall k :: 0 <= k < i && '_' in entries[k] ==> Base(entries[k]) in entries + NewBases(entries, i)
    decreases i
  {
    if i > 0 {
      NewBasesCover(entries, i - 1);
      NewBasesInVisitOrder(entries, i - 1, i);
      var nb := NewBases(entries, i - 1);
      forall k | 0 <= k < i && '_' in entries[k]
        ensures Base(entries[k]) in entries + NewBases(entries, i)
      {
        if k < i - 1 {
          assert Base(entries[k]) in entries + nb;
          if Base(entries[k]) !in entries {
            var q :| 0 <= q < |nb| && nb[q] == Base(entries[k]);
            assert NewBases(entries, i)[q] == nb[q];
          }
        }
      }
    }
  }

  /** An appended base is never appended twice. */
  lemma {:induction false} NewBasesDistinct(entries: seq<string>, i: int)
    requires 0 <= i <= |entries|
    ensures forall p, q :: 0 <= p < q < |NewBases(entries, i)| ==> NewBases(entries, i)[p] != NewBases(entries, i)[q]
    decreases i
  {
    if i > 0 {
      NewBasesDistinct(entries, i - 1);
    }
  }

  /**
   * Two variants of different languages, such as `de_AT:fr_CA`: they are
   * tried last entry first (`fr_CA`, `de_AT`), then their bases in the same
   * order (`fr`, `de`); `en` then comes last unless one of them is `en`.
   */
  lemma TwoVariants(a: string, b: string)
    requires ':' !in a && ':' !in b && '_' in a && '_' in b && Base(a) != Base(b)
    ensures Reverse(SplitColons(a + ":" + b)) == [b, a]
    ensures NewBases([b, a], 2) == [Base(b), Base(a)]
  {
    SplitTwo(a, b);
    assert Reverse([a, b]) == [b, a];
    var e := [b, a];
    assert NewBases(e, 1) == [Base(b)];
  }

  /** Two colon-free entries joined by one colon split back into the two. */
  lemma SplitTwo(a: string, b: string)
    requires ':' !in a && ':' !in b && b != []
    ensures SplitColons(a + ":" + b) == [a, b]
  {
    var s := a + ":" + b;
    assert s[|a|] == ':';
    assert forall k :: 0 <= k < |a| ==> s[k] == a[k];
    FindAt(s, ':', |a|);
    assert s[..|a|] == a && s[|a| + 1..] == b;
  }

  /** `strchr` finds the first occurrence. */
  lemma FindAt(s: string, c: char, p: nat)
    requires p < |s| && s[p] == c && forall k :: 0 <= k < p ==> s[k] != c
    ensures Find(s, c) == Some(p)
  {
    assert s[p] in s;
  }

  /** An entry appended by the base-language loop: the base of some entry. */
  ghost predicate IsBaseOf(entries: seq<string>, x: string)
  {
    exists j :: 0 <= j < |entries| && '_' in entries[j] && x == Base(entries[j])
  }

  /** What the base-language loop keeps true before visiting entry `i`. */
  ghost predicate BaseLoop(entries: seq<string>, locales: seq<string>, i: int)
  {
    var n := |entries|;
    0 <= i <= |locales| && n <= |locales| <= n + (if i < n then i else n) &&
    locales[..n] == entries &&
    locales == entries + NewBases(entries, if i < n then i else n) &&
    (forall k :: 0 <= k < i && '_' in locales[k] ==> Base(locales[k]) in locales) &&
    (forall k :: n <= k < |locales| ==> locales[k] !in locales[..k] && IsBaseOf(entries, locales[k]))
  }

  /** One turn of the base-language loop, at entry `i`. */
  method VisitEntry(entries: seq<string>, locales: seq<string>, i: int) returns (locales': seq<string>)
    requires BaseLoop(entries, locales, i) && i < |locales|
    ensures BaseLoop(entries, locales', i + 1)
    ensures '_' in locales[i] && Base(locales[i]) !in locales ==> locales' == locales + [Base(locales[i])]
    ensures !('_' in locales[i] && Base(locales[i]) !in locales) ==> locales' == locales
  {
    locales' := locales;
    var entry := locales[i];
    var p := Find(entry, '_');
    if p.Some? {
      var base := entry[..p.value];
      var present := Contains(locales, base);
      if !present {
        locales' := locales + [base];
        VisitAppends(entries, locales, i);
        return;
      }
    }
    VisitKeeps(entries, locales, i);
  }

  /** Only entries of the help string have a variant; appended bases do not. */
  lemma VariantIsEntry(entries: seq<string>, locales: seq<string>, i: int)
    requires BaseLoop(entries, locales, i) && i < |locales| && '_' in locales[i]
    ensures i < |entries| && locales[i] == entries[i]
  {
    var n := |entries|;
    if i >= n {
      assert false;
    }
    assert locales[i] == locales[..n][i];
  }

  /** A visit that appends nothing keeps the loop's invariant. */
  lemma VisitKeeps(entries: seq<string>, locales: seq<string>, i: int)
    requires BaseLoop(entries, locales, i) && i < |locales|
    requires !('_' in locales[i] && Base(locales[i]) !in locales)
    ensures BaseLoop(entries, locales, i + 1)
  {
    var n := |entries|;
    if i < n {
      assert locales[i] == entries[i] by {
        assert locales[i] == locales[..n][i];
      }
      assert '_' in entries[i] ==> Base(entries[i]) in entries + NewBases(entries, i);
    }
  }

  /** A visit that appends the entry's base keeps the loop's invariant. */
  lemma VisitAppends(entries: seq<string>, locales: seq<string>, i: int)
    requires BaseLoop(entries, locales, i) && i < |locales|
    requires '_' in locales[i] && Base(locales[i]) !in locales
    ensures BaseLoop(entries, locales + [Base(locales[i])], i + 1)
  {
    var n := |entries|;
    VariantIsEntry(entries, locales, i);
    var base := Base(locales[i]);
    var l' := locales + [base];
    assert l'[..n] == entries by {
      assert l'[..|locales|] == locales;
    }
    assert IsBaseOf(entries, base) by {
      assert '_' in entries[i] && base == Base(entries[i]);
    }
    assert l' == entries + NewBases(entries, i + 1) by {
      assert NewBases(entries, i + 1) == NewBases(entries, i) + [base];
    }
    AppendKeepsClosure(locales, i, base);
    AppendKeepsFresh(entries, locales, base);
  }

  /** Appending the base of entry `i` keeps the bases of entries `0 .. i` present. */
  lemma AppendKeepsClosure(locales: seq<string>, i: int, base: string)
    requires 0 <= i < |locales| && '_' in locales[i] && base == Base(locales[i])
    requires forall k :: 0 <= k < i && '_' in locales[k] ==> Base(locales[k]) in locales
    ensures forall k :: 0 <= k < i + 1 && '_' in (locales + [base])[k] ==> Base((locales + [base])[k]) in locales + [base]
  {
  }

  /** Appending a new base of an entry keeps every appended base new. */
  lemma AppendKeepsFresh(entries: seq<string>, locales: seq<string>, base: string)
    requires |entries| <= |locales| && base !in locales && IsBaseOf(entries, base)
    requires forall k :: |entries| <= k < |locales| ==> locales[k] !in locales[..k] && IsBaseOf(entries, locales[k])
    ensures forall k :: |entries| <= k < |locales + [base]| ==>
      (locales + [base])[k] !in (locales + [base])[..k] && IsBaseOf(entries, (locales + [base])[k])
  {
    var l' := locales + [base];
    forall k | |entries| <= k < |l'|
      ensures l'[k] !in l'[..k] && IsBaseOf(entries, l'[k])
    {
      if k < |locales| {
        assert l'[..k] == locales[..k];
      } else {
        assert l'[..k] == locales;
      }
    }
  }



  /**
   * The base-language loop over `locales`, which appends to the list it is
   * walking: for each entry with a `_`, its base is appended unless an equal
   * entry is already present. Appended bases have no `_`, so the walk ends.
   */
  method BasePhase(entries: seq<string>) returns (locales: seq<string>)
    ensures locales == entries + NewBases(entries, |entries|)
    ensures forall k :: 0 <= k < |locales| && '_' in locales[k] ==> Base(locales[k]) in locales
    ensures forall k :: |entries| <= k < |locales| ==> locales[k] !in locales[..k] && IsBaseOf(entries, locales[k])
  {
    var n := |entries|;
    locales := entries;
    var i := 0;
    while i < |locales|
      invariant BaseLoop(entries, locales, i)
      decreases 2 * n - i
    {
      locales := VisitEntry(entries, locales, i);
      i := i + 1;
    }
  }

  /**
   * `locales_parse()`: the locales to try for the colon-separated list
   * `help`, or `None` for a `NULL` list.
   */
  method LocalesParse(help: Option<string>) returns (r: Option<seq<string>>)
    ensures r.None? <==> help.None?
    ensures r.Some? ==>
      var entries := Reverse(SplitColons(help.value));
      var bases := entries + NewBases(entries, |entries|);
      r.value == bases + (if DefaultLocale in bases then [] else [DefaultLocale])
    ensures r.Some? ==>
      var entries := Reverse(SplitColons(help.value));
      var l := r.value;
      DefaultLocale in l &&
      (forall k :: 0 <= k < |l| && '_' in l[k] ==> Base(l[k]) in l) &&
      (forall k :: |entries| <= k < |l| ==> l[k] !in l[..k]) &&
      (forall k :: |entries| <= k < |l| ==> l[k] == DefaultLocale || IsBaseOf(entries, l[k]))
  {
    if help.None? {
      return None;
    }
    var entries := SplitPhase(help.value);
    var locales := BasePhase(entries);
    var present := Contains(locales, DefaultLocale);
    if !present {
      locales := locales + [DefaultLocale];
    }
    r := Some(locales);
  }

  lemma ReversePrepend<T>(x: T, l: seq<T>)
    ensures Reverse([x] + l) == Reverse(l) + [x]
  {
    assert ([x] + l)[1..] == l;
  }

  lemma ReverseReverse<T>(l: seq<T>)
    ensures Reverse(Reverse(l)) == l
  {
  }
}
