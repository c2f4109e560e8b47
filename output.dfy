/** The result serialisation: a list is sorted case-insensitively, with
    ties kept in insertion order, and each entry becomes one line. */
module Output {

  function AsciiLower(c: char): char
  {
    if 'A' <= c <= 'Z' then (c as int + 32) as char else c
  }

  /** The sort key: the entry with ASCII capitals lowered. */
  function Lower(s: string): string
  {
    seq(|s|, i requires 0 <= i < |s| => AsciiLower(s[i]))
  }

  /** String order by code point, shorter prefix first. */
  predicate LexLe(a: string, b: string)
    decreases |a|
  {
    a == [] || (b != [] && (a[0] < b[0] || (a[0] == b[0] && LexLe(a[1..], b[1..]))))
  }

  lemma {:induction false} LexLeReflexive(a: string)
    ensures LexLe(a, a)
    decreases |a|
  {
    if a != [] {
      LexLeReflexive(a[1..]);
    }
  }

  lemma {:induction false} LexLeTotal(a: string, b: string)
    ensures LexLe(a, b) || LexLe(b, a)
    decreases |a|
  {
    if a != [] && b != [] && a[0] == b[0] {
      LexLeTotal(a[1..], b[1..]);
    }
  }

  lemma {:induction false} LexLeTransitive(a: string, b: string, c: string)
    requires LexLe(a, b) && LexLe(b, c)
    ensures LexLe(a, c)
    decreases |a|
  {
    if a != [] && a[0] == b[0] && b[0] == c[0] {
      LexLeTransitive(a[1..], b[1..], c[1..]);
    }
  }

  predicate KeyLe(a: string, b: string)
  {
    LexLe(Lower(a), Lower(b))
  }

  /** Inserts `x` before the first entry whose key is not below its own. */
  function Insert(x: string, s: seq<string>): seq<string>
    decreases |s|
  {
    if s == [] || KeyLe(x, s[0]) then [x] + s else [s[0]] + Insert(x, s[1..])
  }

  /** Python's `sorted(entries, key=str.lower)` for ASCII letters. */
  function SortByLower(entries: seq<string>): seq<string>
    decreases |entries|
  {
    if entries == [] then [] else Insert(entries[0], SortByLower(entries[1..]))
  }

  predicate SortedByKey(s: seq<string>)
  {
    forall i :: 0 < i < |s| ==> KeyLe(s[i - 1], s[i])
  }

  /** The entries of `s` whose key is `k`, in their order in `s`. */
  function KeyFilter(s: seq<string>, k: string): seq<string>
    decreases |s|
  {
    if s == [] then [] else (if Lower(s[0]) == k then [s[0]] else []) + KeyFilter(s[1..], k)
  }

  lemma {:induction false} InsertSorted(x: string, s: seq<string>)
    requires SortedByKey(s)
    ensures SortedByKey(Insert(x, s))
    ensures Insert(x, s)[0] == x || Insert(x, s)[0] == s[0]
    decreases |s|
  {
    if s != [] && !KeyLe(x, s[0]) {
      LexLeTotal(Lower(x), Lower(s[0]));
      assert SortedByKey(s[1..]) by {
        forall i | 0 < i < |s[1..]| ensures KeyLe(s[1..][i - 1], s[1..][i]) {
          assert s[1..][i - 1] == s[i] && s[1..][i] == s[i + 1];
        }
      }
      InsertSorted(x, s[1..]);
      var r := Insert(x, s[1..]);
      forall i | 0 < i < |[s[0]] + r| ensures KeyLe(([s[0]] + r)[i - 1], ([s[0]] + r)[i]) {
        if i > 1 {
          assert ([s[0]] + r)[i - 1] == r[i - 2] && ([s[0]] + r)[i] == r[i - 1];
        }
      }
    }
  }

  lemma {:induction false} InsertMultiset(x: string, s: seq<string>)
    ensures multiset(Insert(x, s)) == multiset{x} + multiset(s)
    decreases |s|
  {
    if s != [] && !KeyLe(x, s[0]) {
      InsertMultiset(x, s[1..]);
      assert s == [s[0]] + s[1..];
    }
  }

  /** `x` lands ahead of every entry of `s` that shares its key. */
  lemma {:induction false} InsertKeyFilter(x: string, s: seq<string>, k: string)
    ensures KeyFilter(Insert(x, s), k) == (if Lower(x) == k then [x] else []) + KeyFilter(s, k)
    decreases |s|
  {
    var hx := if Lower(x) == k then [x] else [];
    if s == [] || KeyLe(x, s[0]) {
      assert Insert(x, s) == [x] + s;
      assert ([x] + s)[0] == x && ([x] + s)[1..] == s;
      assert KeyFilter([x] + s, k) == hx + KeyFilter(s, k);
    } else {
      var r := Insert(x, s[1..]);
      var h0 := if Lower(s[0]) == k then [s[0]] else [];
      assert Insert(x, s) == [s[0]] + r;
      InsertKeyFilter(x, s[1..], k);
      assert ([s[0]] + r)[0] == s[0] && ([s[0]] + r)[1..] == r;
      assert KeyFilter([s[0]] + r, k) == h0 + KeyFilter(r, k);
      assert KeyFilter(s, k) == h0 + KeyFilter(s[1..], k);
      if Lower(s[0]) == k && Lower(x) == k {
        LexLeReflexive(k);
        assert false;
      }
      assert h0 == [] || hx == [];
      assert h0 + (hx + KeyFilter(s[1..], k)) == hx + (h0 + KeyFilter(s[1..], k));
    }
  }

  /** The sort orders by key, keeps every entry, and keeps entries with
      equal keys in their original order (it is stable). */
  lemma {:induction false} SortByLowerCorrect(entries: seq<string>)
    ensures SortedByKey(SortByLower(entries))
    ensures multiset(SortByLower(entries)) == multiset(entries)
    ensures forall k :: KeyFilter(SortByLower(entries), k) == KeyFilter(entries, k)
    decreases |entries|
  {
    if entries != [] {
      var rest := SortByLower(entries[1..]);
      SortByLowerCorrect(entries[1..]);
      InsertSorted(entries[0], rest);
      InsertMultiset(entries[0], rest);
      assert entries == [entries[0]] + entries[1..];
      forall k ensures KeyFilter(SortByLower(entries), k) == KeyFilter(entries, k) {
        InsertKeyFilter(entries[0], rest, k);
      }
    }
  }

  /** Adjacent order extends to every pair of entries. */
  lemma {:induction false} SortedPairwise(s: seq<string>, i: nat, j: nat)
    requires SortedByKey(s)
    requires i <= j < |s|
    ensures KeyLe(s[i], s[j])
    decreases j - i
  {
    if i == j {
      LexLeReflexive(Lower(s[i]));
    } else {
      SortedPairwise(s, i, j - 1);
      LexLeTransitive(Lower(s[i]), Lower(s[j - 1]), Lower(s[j]));
    }
  }

  /** Each entry followed by a newline. */
  function Lines(entries: seq<string>): string
    decreases |entries|
  {
    if entries == [] then "" else entries[0] + "\n" + Lines(entries[1..])
  }

  lemma {:induction false} LinesSnoc(entries: seq<string>, x: string)
    ensures Lines(entries + [x]) == Lines(entries) + x + "\n"
    decreases |entries|
  {
    if entries == [] {
      assert entries + [x] == [x];
    } else {
      assert (entries + [x])[1..] == entries[1..] + [x];
      LinesSnoc(entries[1..], x);
    }
  }

  /** The text appended to an output file: nothing for an empty list,
      otherwise the sorted entries one per line. */
  function Render(entries: seq<string>): string
  {
    if entries == [] then "" else Lines(SortByLower(entries))
  }

  /** Index of the first newline at or after `i`, or the end of the text. */
  function LineEnd(text: string, i: nat): (k: nat)
    requires i <= |text|
    ensures i <= k <= |text|
    ensures k < |text| ==> text[k] == '\n'
    ensures forall j :: i <= j < k ==> text[j] != '\n'
    decreases |text| - i
  {
    if i == |text| || text[i] == '\n' then i else LineEnd(text, i + 1)
  }

  /** Reads a file's text back as its lines. */
  function SplitLines(text: string): seq<string>
    decreases |text|
  {
    if text == [] then []
    else
      var k := LineEnd(text, 0);
      if k == |text| then [text] else [text[..k]] + SplitLines(text[k + 1..])
  }

  /** Entries without newlines are read back exactly: one entry per line. */
  lemma {:induction false} SplitLinesOfLines(entries: seq<string>)
    requires forall e :: e in entries ==> '\n' !in e
    ensures SplitLines(Lines(entries)) == entries
    decreases |entries|
  {
    if entries != [] {
      var e := entries[0];
      var text := Lines(entries);
      assert text == e + "\n" + Lines(entries[1..]);
      var k := LineEnd(text, 0);
      assert text[|e|] == '\n';
      assert forall j :: 0 <= j < |e| ==> text[j] == e[j] && e[j] in e;
      assert k == |e|;
      assert text[..k] == e;
      assert text[k + 1..] == Lines(entries[1..]);
      SplitLinesOfLines(entries[1..]);
    }
  }

  /** The appended text is empty exactly for an empty list, and otherwise
      reads back as the stably sorted entries, one per line. */
  lemma RenderReadsBack(entries: seq<string>)
    requires forall e :: e in entries ==> '\n' !in e
    ensures Render(entries) == "" <==> entries == []
    ensures SplitLines(Render(entries)) == SortByLower(entries)
  {
    SortByLowerCorrect(entries);
    if entries != [] {
      var sorted := SortByLower(entries);
      assert |sorted| > 0 by {
        assert entries[0] in multiset(entries);
      }
      forall e | e in sorted ensures '\n' !in e {
        assert e in multiset(sorted);
      }
      SplitLinesOfLines(sorted);
    }
  }

  /** The write loop: the entries in key order, each with a newline. */
  method Emit(entries: seq<string>) returns (text: string)
    ensures text == Render(entries)
  {
    text := "";
    if entries != [] {
      var sorted := SortByLower(entries);
      for i := 0 to |sorted|
        invariant text == Lines(sorted[..i])
      {
        assert sorted[..i + 1] == sorted[..i] + [sorted[i]];
        LinesSnoc(sorted[..i], sorted[i]);
        text := text + sorted[i] + "\n";
      }
      assert sorted[..|sorted|] == sorted;
    }
  }
}
