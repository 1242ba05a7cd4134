/** Which files of the chapters directory the loader takes, and in which
    order: names `chapter_<int>.txt` in listing order, then a stable sort
    by chapter number (Python's `list.sort` with a key is stable). */
module Listing {

  import opened Wrappers
  import opened Text

  /** A chapter file the loader will read: its number and its file name. */
  datatype Candidate = Candidate(number: int, fileName: string)

  const NamePrefix: string := "chapter_"
  const NameSuffix: string := ".txt"

  /** The name the generator gives the file of chapter `n`. */
  function ChapterFileName(n: int): string {
    NamePrefix + Decimal(n) + NameSuffix
  }

  /** The chapter number of a file name, or `None` when the name is not
      taken: it must start with `chapter_`, end with `.txt`, and what is
      left after every `chapter_` and then every `.txt` is removed must
      parse as an integer. */
  function ChapterFileNumber(name: string): (r: Option<int>)
    ensures r.Some? ==> StartsWith(name, NamePrefix) && EndsWith(name, NameSuffix)
  {
    if StartsWith(name, NamePrefix) && EndsWith(name, NameSuffix) then
      ParseInt(ReplaceAll(ReplaceAll(name, NamePrefix, ""), NameSuffix, ""))
    else None
  }

  lemma NumeralHasNoNameChars(n: int)
    ensures 'c' !in Decimal(n) && '.' !in Decimal(n)
  {
  }

  lemma NameShape(n: int)
    ensures StartsWith(ChapterFileName(n), NamePrefix) && EndsWith(ChapterFileName(n), NameSuffix)
  {
    var name := ChapterFileName(n);
    assert name == NamePrefix + (Decimal(n) + NameSuffix);
    StartsWithConcat(NamePrefix, Decimal(n) + NameSuffix);
    assert name[|name| - |NameSuffix|..] == NameSuffix;
  }

  lemma PrefixRemoved(n: int)
    ensures ReplaceAll(ChapterFileName(n), NamePrefix, "") == Decimal(n) + NameSuffix
  {
    var d := Decimal(n);
    NumeralHasNoNameChars(n);
    assert ChapterFileName(n) == NamePrefix + (d + NameSuffix);
    ReplaceAllLeading(NamePrefix, d + NameSuffix, "");
    assert d + NameSuffix == (d + NameSuffix) + [];
    ReplaceAllKeepsPrefix(d + NameSuffix, [], NamePrefix, "");
  }

  lemma SuffixRemoved(n: int)
    ensures ReplaceAll(Decimal(n) + NameSuffix, NameSuffix, "") == Decimal(n)
  {
    NumeralHasNoNameChars(n);
    ReplaceAllKeepsPrefix(Decimal(n), NameSuffix, NameSuffix, "");
    assert NameSuffix == NameSuffix + [];
    ReplaceAllLeading(NameSuffix, [], "");
  }

  /** The name of chapter `n`'s file gives back `n`. */
  lemma ChapterFileNameRoundTrip(n: int)
    ensures ChapterFileNumber(ChapterFileName(n)) == Some(n)
  {
    NameShape(n);
    PrefixRemoved(n);
    SuffixRemoved(n);
    ParseDecimal(n);
  }

  /** The taken files, in listing order. */
  function Candidates(listing: seq<string>): seq<Candidate> {
    if listing == [] then []
    else
      var name := listing[|listing| - 1];
      Candidates(listing[..|listing| - 1]) + CandidateOf(name)
  }

  /** The candidate a single name gives, if it is taken. */
  function CandidateOf(name: string): (r: seq<Candidate>)
    ensures forall c :: c in r <==> c.fileName == name && ChapterFileNumber(name) == Some(c.number)
  {
    match ChapterFileNumber(name)
    case None => []
    case Some(n) => [Candidate(n, name)]
  }

  /** The selection loop of `export_novel_to_epub`. */
  method SelectChapterFiles(listing: seq<string>) returns (candidates: seq<Candidate>)
    ensures candidates == Candidates(listing)
  {
    candidates := [];
    for i := 0 to |listing|
      invariant candidates == Candidates(listing[..i])
    {
      var name := listing[i];
      assert listing[..i + 1][..i] == listing[..i];
      if StartsWith(name, "chapter_") && EndsWith(name, ".txt") {
        var number := ParseInt(ReplaceAll(ReplaceAll(name, "chapter_", ""), ".txt", ""));
        if number.Some? {
          candidates := candidates + [Candidate(number.value, name)];
        }
      }
    }
    assert listing[..|listing|] == listing;
  }

  /** A file is a candidate exactly when it is listed and its name gives
      that number. */
  lemma CandidatesIff(listing: seq<string>, c: Candidate)
    ensures c in Candidates(listing) <==> c.fileName in listing && ChapterFileNumber(c.fileName) == Some(c.number)
  {
    if c in Candidates(listing) {
      CandidatesListed(listing, c);
    }
    if c.fileName in listing && ChapterFileNumber(c.fileName) == Some(c.number) {
      ListedAreCandidates(listing, c);
    }
  }

  lemma {:induction false} CandidatesListed(listing: seq<string>, c: Candidate)
    requires c in Candidates(listing)
    ensures c.fileName in listing && ChapterFileNumber(c.fileName) == Some(c.number)
  {
    var front := listing[..|listing| - 1];
    var last := listing[|listing| - 1];
    if c in Candidates(front) {
      CandidatesListed(front, c);
      assert c.fileName in front;
    } else {
      assert c in CandidateOf(last);
    }
  }

  lemma {:induction false} ListedAreCandidates(listing: seq<string>, c: Candidate)
    requires c.fileName in listing && ChapterFileNumber(c.fileName) == Some(c.number)
    ensures c in Candidates(listing)
  {
    var front := listing[..|listing| - 1];
    var last := listing[|listing| - 1];
    assert listing == front + [last];
    if c.fileName == last {
      assert c in CandidateOf(last);
    } else {
      assert c.fileName in front;
      ListedAreCandidates(front, c);
    }
  }

  // ---------------------------------------------------------------------
  // Sorting by chapter number

  predicate SortedByNumber(cs: seq<Candidate>) {
    forall i, j :: 0 <= i < j < |cs| ==> cs[i].number <= cs[j].number
  }

  /** The candidates with number `n`, in order. */
  function WithNumber(cs: seq<Candidate>, n: int): seq<Candidate> {
    if cs == [] then []
    else
      var last := cs[|cs| - 1];
      WithNumber(cs[..|cs| - 1], n) + (if last.number == n then [last] else [])
  }

  /** Inserts `c` after every element whose number is not larger. */
  function InsertByNumber(sorted: seq<Candidate>, c: Candidate): seq<Candidate> {
    if sorted == [] then [c]
    else
      var last := sorted[|sorted| - 1];
      if last.number <= c.number then sorted + [c]
      else InsertByNumber(sorted[..|sorted| - 1], c) + [last]
  }

  /** `sort(key=number)`: a stable sort, written as an insertion sort. */
  function SortByNumber(cs: seq<Candidate>): seq<Candidate> {
    if cs == [] then []
    else InsertByNumber(SortByNumber(cs[..|cs| - 1]), cs[|cs| - 1])
  }

  lemma {:induction false} InsertMultiset(sorted: seq<Candidate>, c: Candidate)
    ensures multiset(InsertByNumber(sorted, c)) == multiset(sorted) + multiset{c}
  {
    if sorted != [] {
      var front := sorted[..|sorted| - 1];
      var last := sorted[|sorted| - 1];
      assert sorted == front + [last];
      if last.number > c.number {
        InsertMultiset(front, c);
      }
    }
  }

  lemma InsertMembers(sorted: seq<Candidate>, c: Candidate, x: Candidate)
    ensures x in InsertByNumber(sorted, c) <==> x in sorted || x == c
  {
    InsertMultiset(sorted, c);
    assert x in InsertByNumber(sorted, c) <==> x in multiset(InsertByNumber(sorted, c));
    assert x in sorted <==> x in multiset(sorted);
  }

  lemma {:induction false} InsertSorted(sorted: seq<Candidate>, c: Candidate)
    requires SortedByNumber(sorted)
    ensures SortedByNumber(InsertByNumber(sorted, c))
  {
    if sorted != [] {
      var front := sorted[..|sorted| - 1];
      var last := sorted[|sorted| - 1];
      if last.number > c.number {
        assert SortedByNumber(front);
        InsertSorted(front, c);
        var r := InsertByNumber(front, c);
        forall k | 0 <= k < |r| ensures r[k].number <= last.number {
          var x := r[k];
          InsertMembers(front, c, x);
          if x != c {
            var m :| 0 <= m < |front| && front[m] == x;
            assert sorted[m] == x;
          }
        }
        var res := r + [last];
        assert InsertByNumber(sorted, c) == res;
        forall i, j | 0 <= i < j < |res| ensures res[i].number <= res[j].number {
          assert res[i] == r[i];
          if j < |r| {
            assert res[j] == r[j];
          }
        }
      } else {
        var res := sorted + [c];
        forall i, j | 0 <= i < j < |res| ensures res[i].number <= res[j].number {
          assert res[i] == sorted[i];
          if j < |sorted| {
            assert res[j] == sorted[j];
          } else {
            assert sorted[i].number <= last.number;
          }
        }
      }
    }
  }

  /** Inserting keeps the order among candidates with equal numbers, `c`
      going after them: the insertion is stable. */
  lemma {:induction false} InsertWithNumber(sorted: seq<Candidate>, c: Candidate, n: int)
    ensures WithNumber(InsertByNumber(sorted, c), n) == WithNumber(sorted, n) + (if c.number == n then [c] else [])
  {
    if sorted == [] {
      assert [] + [c] == [c];
      WithNumberSnoc([], c, n);
    } else {
      var front := sorted[..|sorted| - 1];
      var last := sorted[|sorted| - 1];
      if last.number <= c.number {
        assert InsertByNumber(sorted, c) == sorted + [c];
        WithNumberSnoc(sorted, c, n);
      } else {
        InsertWithNumber(front, c, n);
        var r := InsertByNumber(front, c);
        assert InsertByNumber(sorted, c) == r + [last];
        WithNumberSnoc(r, last, n);
        assert sorted == front + [last];
        WithNumberSnoc(front, last, n);
        var w := WithNumber(front, n);
        if c.number == n {
          ConcatEmpty(w + [c]);
          ConcatEmpty(w);
        } else {
          ConcatEmpty(w);
          ConcatEmpty(WithNumber(sorted, n));
        }
      }
    }
  }

  lemma WithNumberSnoc(cs: seq<Candidate>, x: Candidate, n: int)
    ensures WithNumber(cs + [x], n) == WithNumber(cs, n) + (if x.number == n then [x] else [])
  {
    assert (cs + [x])[..|cs|] == cs;
  }

  /** The sorted list is ordered by number. */
  lemma {:induction false} SortSorted(cs: seq<Candidate>)
    ensures SortedByNumber(SortByNumber(cs))
  {
    if cs != [] {
      SortSorted(cs[..|cs| - 1]);
      InsertSorted(SortByNumber(cs[..|cs| - 1]), cs[|cs| - 1]);
    }
  }

  /** The sorted list is a permutation of the input. */
  lemma {:induction false} SortPermutes(cs: seq<Candidate>)
    ensures multiset(SortByNumber(cs)) == multiset(cs)
  {
    if cs != [] {
      var front := cs[..|cs| - 1];
      var last := cs[|cs| - 1];
      SortPermutes(front);
      SortStep(cs);
      InsertMultiset(SortByNumber(front), last);
      MultisetSnoc(cs);
    }
  }

  lemma SortStep(cs: seq<Candidate>)
    requires cs != []
    ensures SortByNumber(cs) == InsertByNumber(SortByNumber(cs[..|cs| - 1]), cs[|cs| - 1])
  {
  }

  lemma MultisetSnoc<T>(s: seq<T>)
    requires s != []
    ensures multiset(s) == multiset(s[..|s| - 1]) + multiset{s[|s| - 1]}
  {
    assert s == s[..|s| - 1] + [s[|s| - 1]];
  }

  /** Candidates with equal numbers keep their input order: the sort is stable. */
  lemma {:induction false} SortStable(cs: seq<Candidate>, n: int)
    ensures WithNumber(SortByNumber(cs), n) == WithNumber(cs, n)
  {
    if cs != [] {
      var front := cs[..|cs| - 1];
      SortStable(front, n);
      InsertWithNumber(SortByNumber(front), cs[|cs| - 1], n);
    }
  }

  lemma {:induction false} WithNumberMembers(cs: seq<Candidate>, n: int, x: Candidate)
    ensures x in WithNumber(cs, n) <==> x in cs && x.number == n
  {
    if cs != [] {
      var front := cs[..|cs| - 1];
      WithNumberMembers(front, n, x);
      assert cs == front + [cs[|cs| - 1]];
    }
  }

  lemma SortedLastIsLargest(cs: seq<Candidate>, x: Candidate)
    requires SortedByNumber(cs) && x in cs
    ensures x.number <= cs[|cs| - 1].number
  {
    var k :| 0 <= k < |cs| && cs[k] == x;
  }

  /** A sequence ordered by number is fixed by its runs of equal numbers:
      two sorted sequences with the same run for every number are equal.
      So SortByNumber is the one stable sort of its input. */
  lemma {:induction false} StableSortUnique(a: seq<Candidate>, b: seq<Candidate>)
    requires SortedByNumber(a) && SortedByNumber(b)
    requires forall n :: WithNumber(a, n) == WithNumber(b, n)
    ensures a == b
    decreases |a| + |b|
  {
    if a == [] || b == [] {
      if a != [] {
        var x := a[|a| - 1];
        WithNumberMembers(a, x.number, x);
        assert false;
      } else if b != [] {
        var x := b[|b| - 1];
        WithNumberMembers(b, x.number, x);
        assert false;
      }
    } else {
      var fa, la := a[..|a| - 1], a[|a| - 1];
      var fb, lb := b[..|b| - 1], b[|b| - 1];
      WithNumberMembers(a, la.number, la);
      WithNumberMembers(b, lb.number, lb);
      var xa := WithNumber(b, la.number)[|WithNumber(b, la.number)| - 1];
      WithNumberMembers(b, la.number, xa);
      SortedLastIsLargest(b, xa);
      var xb := WithNumber(a, lb.number)[|WithNumber(a, lb.number)| - 1];
      WithNumberMembers(a, lb.number, xb);
      SortedLastIsLargest(a, xb);
      var m := la.number;
      assert lb.number == m;
      assert WithNumber(a, m) == WithNumber(fa, m) + [la];
      assert WithNumber(b, m) == WithNumber(fb, m) + [lb];
      assert la == lb;
      forall n ensures WithNumber(fa, n) == WithNumber(fb, n) {
        if n == m {
          assert WithNumber(fa, m) == WithNumber(a, m)[..|WithNumber(a, m)| - 1];
        } else {
          assert WithNumber(fa, n) == WithNumber(a, n);
        }
      }
      StableSortUnique(fa, fb);
      assert a == fa + [la] && b == fb + [lb];
    }
  }
}
