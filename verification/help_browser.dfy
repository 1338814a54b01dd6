/**
 * The reference handling of the help browser dialog (helpbrowser/dialog.c):
 * the ASCII case-insensitive prefix test `has_case_prefix`, the history
 * combo box kept by `history_add`, and the reference bookkeeping of
 * `browser_dialog_load` (the first reference trimmed to its directory, the
 * anchor split off a reference, the local/remote decision).
 *
 * `uri_to_abs` is not part of this model: it is a parameter of `Load`.
 * Requesting, rendering and scrolling pages are left out; `Load` returns
 * what it would request.
 */
module HelpBrowser {
  import opened CTypes

  // ---------------------------------------------------------------------
  // has_case_prefix
  // ---------------------------------------------------------------------

  /** `g_ascii_tolower`: upper-case ASCII letters to lower case, all else unchanged. */
  function AsciiLower(c: char): (l: char)
    ensures 'A' <= c <= 'Z' ==> l as int == c as int + 32
    ensures !('A' <= c <= 'Z') ==> l == c
  {
    if 'A' <= c <= 'Z' then (c as int - 'A' as int + 'a' as int) as char else c
  }

  function Lowered(s: string): (r: string)
    ensures |r| == |s| && forall k :: 0 <= k < |s| ==> r[k] == AsciiLower(s[k])
  {
    if s == [] then [] else [AsciiLower(s[0])] + Lowered(s[1..])
  }

  /** `needle` is a prefix of `haystack` when both are folded to lower case. */
  predicate CasePrefix(haystack: string, needle: string)
  {
    |needle| <= |haystack| && Lowered(needle) == Lowered(haystack[..|needle|])
  }

  /** `has_case_prefix`: walks both strings while the folded characters agree. */
  method HasCasePrefix(haystack: string, needle: string) returns (b: bool)
    ensures b <==> CasePrefix(haystack, needle)
  {
    var i := 0;
    while i < |needle| && i < |haystack| && AsciiLower(needle[i]) == AsciiLower(haystack[i])
      invariant 0 <= i <= |needle| && i <= |haystack|
      invariant forall k :: 0 <= k < i ==> AsciiLower(needle[k]) == AsciiLower(haystack[k])
    {
      i := i + 1;
    }
    b := i == |needle|;
    CasePrefixPointwise(haystack, needle);
  }

  /** The empty needle is a prefix of everything; a longer needle of nothing. */
  lemma CasePrefixBounds(haystack: string, needle: string)
    ensures CasePrefix(haystack, "")
    ensures |haystack| < |needle| ==> !CasePrefix(haystack, needle)
  {
    assert Lowered(haystack[..0]) == [];
  }

  /** A case prefix is a character-by-character match after folding. */
  lemma CasePrefixPointwise(haystack: string, needle: string)
    ensures CasePrefix(haystack, needle) <==>
      |needle| <= |haystack| && forall k :: 0 <= k < |needle| ==> AsciiLower(needle[k]) == AsciiLower(haystack[k])
  {
    if |needle| <= |haystack| && forall k :: 0 <= k < |needle| ==> AsciiLower(needle[k]) == AsciiLower(haystack[k]) {
      assert Lowered(needle) == Lowered(haystack[..|needle|]);
    }
    if CasePrefix(haystack, needle) {
      forall k | 0 <= k < |needle|
        ensures AsciiLower(needle[k]) == AsciiLower(haystack[k])
      {
        assert Lowered(needle)[k] == Lowered(haystack[..|needle|])[k];
      }
    }
  }

  // ---------------------------------------------------------------------
  // The history combo box
  // ---------------------------------------------------------------------

  /** A row of the history list store: the page title and its reference. */
  datatype HistoryEntry = HistoryEntry(title: string, ref: string)

  /** The position of the first entry for `ref`, or `None`. */
  function FindRef(h: seq<HistoryEntry>, ref: string): (r: Option<nat>)
    ensures r.Some? ==> r.value < |h| && h[r.value].ref == ref
    ensures r.Some? ==> forall k :: 0 <= k < r.value ==> h[k].ref != ref
    ensures r.None? <==> forall k :: 0 <= k < |h| ==> h[k].ref != ref
  {
    if h == [] then None
    else if h[0].ref == ref then Some(0)
    else match FindRef(h[1..], ref)
      case None => None
      case Some(i) => Some(i + 1)
  }

  /**
   * The history after visiting `ref`: the first entry for `ref` moved to the
   * top, or a new entry `(title, ref)` on top when there is none.
   */
  function HistoryAdded(h: seq<HistoryEntry>, ref: string, title: string): seq<HistoryEntry>
  {
    match FindRef(h, ref)
    case Some(i) => [h[i]] + h[..i] + h[i + 1..]
    case None => [HistoryEntry(title, ref)] + h
  }

  /** After a visit, the top entry is for the visited reference. */
  lemma HistoryAddedTop(h: seq<HistoryEntry>, ref: string, title: string)
    ensures |HistoryAdded(h, ref, title)| > 0 && HistoryAdded(h, ref, title)[0].ref == ref
  {
  }

  /**
   * Visiting a reference already in the history reorders it: same length,
   * same entries, and the first entry for `ref`, with its old title, on top.
   */
  lemma HistoryAddedMoves(h: seq<HistoryEntry>, ref: string, title: string)
    requires FindRef(h, ref).Some?
    ensures |HistoryAdded(h, ref, title)| == |h|
    ensures multiset(HistoryAdded(h, ref, title)) == multiset(h)
    ensures HistoryAdded(h, ref, title)[0] == h[FindRef(h, ref).value]
  {
    var i := FindRef(h, ref).value;
    assert HistoryAdded(h, ref, title) == [h[i]] + h[..i] + h[i + 1..];
    MoveToFront(h, i);
  }

  /** Moving entry `i` to the front keeps the entries. */
  lemma MoveToFront<T>(h: seq<T>, i: nat)
    requires i < |h|
    ensures |[h[i]] + h[..i] + h[i + 1..]| == |h|
    ensures multiset([h[i]] + h[..i] + h[i + 1..]) == multiset(h)
  {
    calc {
      multiset([h[i]] + h[..i] + h[i + 1..]);
    ==
      multiset(h[..i] + [h[i]] + h[i + 1..]);
    == { assert h[..i] + [h[i]] + h[i + 1..] == h; }
      multiset(h);
    }
  }

  /** Visiting a new reference puts a new entry `(title, ref)` on top of the old history. */
  lemma HistoryAddedPrepends(h: seq<HistoryEntry>, ref: string, title: string)
    requires FindRef(h, ref).None?
    ensures |HistoryAdded(h, ref, title)| == |h| + 1
    ensures HistoryAdded(h, ref, title)[0] == HistoryEntry(title, ref)
    ensures HistoryAdded(h, ref, title)[1..] == h
  {
  }

  /** Visiting the same reference twice in a row changes the history once. */
  lemma HistoryAddedIdempotent(h: seq<HistoryEntry>, ref: string, title: string, title': string)
    ensures HistoryAdded(HistoryAdded(h, ref, title), ref, title') == HistoryAdded(h, ref, title)
  {
    var r := HistoryAdded(h, ref, title);
    HistoryAddedTop(h, ref, title);
    assert FindRef(r, ref) == Some(0);
    assert HistoryAdded(r, ref, title') == [r[0]] + r[..0] + r[1..];
    assert [r[0]] + r[..0] + r[1..] == r;
  }

  /** Entries for other references keep their relative order. */
  lemma HistoryAddedKeepsOthers(h: seq<HistoryEntry>, ref: string, title: string)
    ensures Others(HistoryAdded(h, ref, title), ref) == Others(h, ref)
  {
    match FindRef(h, ref)
    case None =>
      assert ([HistoryEntry(title, ref)] + h)[1..] == h;
    case Some(i) =>
      var r := HistoryAdded(h, ref, title);
      assert r[1..] == h[..i] + h[i + 1..];
      OthersSplit(h[..i], [h[i]] + h[i + 1..], ref);
      assert h == h[..i] + ([h[i]] + h[i + 1..]);
      assert ([h[i]] + h[i + 1..])[1..] == h[i + 1..];
      OthersSplit(h[..i], h[i + 1..], ref);
  }

  /** The entries for references other than `ref`, in order. */
  function Others(h: seq<HistoryEntry>, ref: string): seq<HistoryEntry>
  {
    if h == [] then [] else (if h[0].ref == ref then [] else [h[0]]) + Others(h[1..], ref)
  }

  lemma {:induction false} OthersSplit(a: seq<HistoryEntry>, b: seq<HistoryEntry>, ref: string)
    ensures Others(a + b, ref) == Others(a, ref) + Others(b, ref)
  {
    if a != [] {
      assert (a + b)[1..] == a[1..] + b;
      OthersSplit(a[1..], b, ref);
    } else {
      assert a + b == b;
    }
  }

  // ---------------------------------------------------------------------
  // The dialog state and browser_dialog_load
  // ---------------------------------------------------------------------

  /** The first reference trimmed at its last `/` (the whole reference when it has none). */
  function Directory(ref: string): (d: string)
    ensures FindLast(ref, '/').None? ==> d == ref
    ensures FindLast(ref, '/').Some? ==> d == ref[..FindLast(ref, '/').value]
    ensures '/' in ref ==> |d| < |ref| && ref[|d|] == '/' && '/' !in ref[|d| + 1..]
  {
    match FindLast(ref, '/')
    case None => ref
    case Some(i) => ref[..i]
  }

  /**
   * The reference to store for `ref`, which resolved to `abs`, and the
   * anchor to jump to: when `ref` has a `#` followed by at least one
   * character, the stored reference is `abs` followed by `#` and the anchor,
   * otherwise it is `abs` and there is no anchor.
   */
  function SplitAnchor(ref: string, abs: string): (r: (string, Option<string>))
    ensures r.1.Some? <==> Find(ref, '#').Some? && Find(ref, '#').value + 1 < |ref|
    ensures r.1.Some? ==> r.1.value == ref[Find(ref, '#').value + 1..] && r.0 == abs + "#" + r.1.value
    ensures r.1.None? ==> r.0 == abs
  {
    match Find(ref, '#')
    case Some(i) =>
      if i + 1 < |ref| then
        DropFirst(ref[i..]);
        (abs + ref[i..], Some(ref[i + 1..]))
      else (abs, None)
    case None => (abs, None)
  }

  /** What `browser_dialog_load` does with a reference, in place of the I/O it performs. */
  datatype LoadOutcome =
    | Unresolved                                     // `uri_to_abs` gave `NULL`
    | Remote(ref: string)                            // handed to the web browser plug-in
    | Local(abs: string, reload: bool, anchor: Option<string>)  // shown in the dialog

  /** The dialog's state: the current reference and the history combo box. */
  class Browser {
    var currentRef: Option<string>
    var history: seq<HistoryEntry>

    constructor ()
      ensures currentRef.None? && history == []
    {
      currentRef := None;
      history := [];
    }

    /**
     * `history_add`: scans the history for `ref`; moves the first match to
     * the top, or puts a new entry on top. The active row is the top row.
     */
    method HistoryAdd(ref: string, title: string)
      modifies this
      ensures history == HistoryAdded(old(history), ref, title)
      ensures currentRef == old(currentRef)
    {
      var i := 0;
      while i < |history| && history[i].ref != ref
        invariant 0 <= i <= |history|
        invariant forall k :: 0 <= k < i ==> history[k].ref != ref
      {
        i := i + 1;
      }
      if i < |history| {
        assert FindRef(history, ref) == Some(i) by {
          FindRefFirst(history, ref, i);
        }
        history := [history[i]] + history[..i] + history[i + 1..];
      } else {
        history := [HistoryEntry(title, ref)] + history;
      }
    }

    /**
     * `browser_dialog_load` for `ref`, resolving references with `uriToAbs`
     * (`uri_to_abs`). On the first load the current reference becomes the
     * directory of `ref`. A resolved reference without a case-insensitive
     * `file:/` prefix goes to the web browser; a local one is shown, reloaded
     * unless it is the current page, and becomes the current reference.
     */
    method Load(ref: string, uriToAbs: (string, string) -> Option<string>) returns (outcome: LoadOutcome)
      modifies this
      ensures history == old(history)
      ensures var base := if old(currentRef).None? then Directory(ref) else old(currentRef).value;
        match uriToAbs(ref, base)
        case None => outcome == Unresolved && currentRef == Some(base)
        case Some(abs) =>
          if !CasePrefix(abs, "file:/") then outcome == Remote(ref) && currentRef == Some(base)
          else
            var (newRef, anchor) := SplitAnchor(ref, abs);
            outcome == Local(abs, uriToAbs(base, base) != Some(abs), anchor) && currentRef == Some(newRef)
    {
      if currentRef.None? {
        currentRef := Some(Directory(ref));
      }
      var base := currentRef.value;
      var resolved := uriToAbs(ref, base);
      if resolved.None? {
        return Unresolved;
      }
      var abs := resolved.value;
      var (newRef, anchor) := SplitAnchor(ref, abs);
      var local := HasCasePrefix(abs, "file:/");
      if !local {
        return Remote(ref);
      }
      var tmp := uriToAbs(base, base);
      var reload := tmp.None? || tmp.value != abs;
      currentRef := Some(newRef);
      outcome := Local(abs, reload, anchor);
    }
  }

  lemma DropFirst(s: string)
    requires |s| > 0
    ensures s == [s[0]] + s[1..]
  {
  }

  lemma FindRefFirst(h: seq<HistoryEntry>, ref: string, i: nat)
    requires i < |h| && h[i].ref == ref && forall k :: 0 <= k < i ==> h[k].ref != ref
    ensures FindRef(h, ref) == Some(i)
  {
    match FindRef(h, ref)
    case None =>
    case Some(j) =>
      if j < i {
      } else if j > i {
      }
  }
}
