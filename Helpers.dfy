/**
 * lib/helpers.py: the display formatting of `parse_duration` and the comment
 * anonymiser `anonymize_comments`.
 */
module Helpers {
  import opened Wrappers
  import opened Decimal

  // ---------------------------------------------------------------------
  // parse_duration
  // ---------------------------------------------------------------------

  /** `divmod(total, 60)`: Python floors, which for the positive divisor 60 is
      exactly Dafny's Euclidean `/` and `%`, also for negative totals. */
  function SplitSeconds(total: int): (r: (int, nat))
    ensures 60 * r.0 + r.1 == total && r.1 < 60
  {
    (total / 60, total % 60)
  }

  /** The `{seconds:02d}` field: a number below 100 as exactly two digits. */
  function TwoDigits(s: nat): (r: string)
    requires s < 100
    ensures |r| == 2 && AllDigits(r) && Value(r) == s
  {
    ValueOfFromNat(s);
    if s < 10 then "0" + FromNat(s) else FromNat(s)
  }

  /** `f'{minutes}:{seconds:02d}'`: unpadded minutes (hours are folded into
      them, nothing caps them at 59) and two-digit seconds. */
  function ClockText(total: int): (t: string)
    ensures |t| >= 4 && t[|t| - 3] == ':' && AllDigits(t[|t| - 2..])
    ensures t[0] == '-' <==> total < 0
    ensures t[0] == '0' ==> t[1] == ':'
  {
    var (minutes, seconds) := SplitSeconds(total);
    var m, s := FromInt(minutes), TwoDigits(seconds);
    var t := m + ":" + s;
    assert t[|t| - 2..] == s;
    assert m[0] == '0' ==> minutes >= 0 && m == FromNat(minutes);
    t
  }

  /** Reads a clock text back: minutes (optionally negative), a colon and two
      digits of seconds. */
  function ParseClock(t: string): Option<int>
  {
    if |t| >= 3 && t[|t| - 3] == ':' && AllDigits(t[|t| - 2..]) then
      match ParseInt(t[..|t| - 3])
      case Some(m) => Some(60 * m + Value(t[|t| - 2..]))
      case None => None
    else None
  }

  /** The clock text keeps the whole number of seconds: it reads back to it. */
  lemma ClockRoundTrip(total: int)
    ensures ParseClock(ClockText(total)) == Some(total)
  {
    var (minutes, seconds) := SplitSeconds(total);
    var m, s := FromInt(minutes), TwoDigits(seconds);
    var t := m + ":" + s;
    assert t[..|t| - 3] == m;
    assert t[|t| - 2..] == s;
    ParseFromInt(minutes);
  }

  /** `parse_duration`: `isoSeconds` stands for `isodate.parse_duration`
      followed by `int(total_seconds())`, `None` when either raises. */
  function ParseDuration(duration: string, isoSeconds: string -> Option<int>): (r: string)
    ensures r == "N/A" <==> isoSeconds(duration).None?
    ensures isoSeconds(duration).Some? ==> r == ClockText(isoSeconds(duration).value)
    ensures isoSeconds(duration).Some? ==> ParseClock(r) == isoSeconds(duration)
  {
    match isoSeconds(duration)
    case None => "N/A"
    case Some(total) =>
      ClockRoundTrip(total);
      ClockText(total)
  }

  /** PT10M59S is 659 seconds and PT1H5M is 3900 seconds. */
  lemma ClockExamples()
    ensures ClockText(659) == "10:59"
    ensures ClockText(3900) == "65:00"
    ensures ClockText(59) == "0:59"
  {
    assert SplitSeconds(659) == (10, 59) && FromInt(10) == "10" && TwoDigits(59) == "59";
    assert SplitSeconds(3900) == (65, 0) && FromInt(65) == "65" && TwoDigits(0) == "00";
    assert SplitSeconds(59) == (0, 59) && FromInt(0) == "0";
  }

  // ---------------------------------------------------------------------
  // anonymize_comments
  // ---------------------------------------------------------------------

  /** The one author that keeps its name. */
  const Exempt: string := "@UniversiteitvanVlaanderen"

  /** `f'User{k}'`. */
  function Pseudonym(k: nat): (p: string)
    ensures |p| > 4 && p[..4] == "User"
  {
    "User" + FromNat(k)
  }

  lemma PseudonymInjective(j: nat, k: nat)
    ensures Pseudonym(j) == Pseudonym(k) <==> j == k
  {
    if Pseudonym(j) == Pseudonym(k) {
      assert FromNat(j) == Pseudonym(j)[4..];
      assert FromNat(k) == Pseudonym(k)[4..];
      FromNatInjective(j, k);
    }
  }

  lemma PseudonymIsNotExempt(k: nat)
    ensures Pseudonym(k) != Exempt
  {
    assert Pseudonym(k)[0] == 'U';
  }

  predicate NoDuplicates(s: seq<string>) {
    forall i, j :: 0 <= i < j < |s| ==> s[i] != s[j]
  }

  /** The keys of `author_mapping`, in insertion order, once the author column
      has been run through `get_anonymized_author`: the distinct non-exempt
      authors in order of first appearance. */
  function DistinctAuthors(authors: seq<string>): seq<string>
  {
    if authors == [] then []
    else
      var prev := DistinctAuthors(authors[..|authors| - 1]);
      var a := authors[|authors| - 1];
      if a == Exempt || a in prev then prev else prev + [a]
  }

  /** Each author is inserted once, and the exempt author never. */
  lemma {:induction false} DistinctAuthorsDistinct(authors: seq<string>)
    ensures NoDuplicates(DistinctAuthors(authors)) && Exempt !in DistinctAuthors(authors)
  {
    if authors != [] {
      DistinctAuthorsDistinct(authors[..|authors| - 1]);
    }
  }

  /** Every non-exempt author of the column is a key, and only those are. */
  lemma {:induction false} DistinctAuthorsMembers(authors: seq<string>)
    ensures forall i :: 0 <= i < |authors| && authors[i] != Exempt ==> authors[i] in DistinctAuthors(authors)
    ensures forall a :: a in DistinctAuthors(authors) ==> a in authors
  {
    if authors != [] {
      var prev := authors[..|authors| - 1];
      DistinctAuthorsMembers(prev);
      assert forall i :: 0 <= i < |prev| ==> prev[i] == authors[i];
    }
  }

  /** `author_mapping` after inserting the keys of `order` one by one, the
      k-th of them mapped to `User<k>`. */
  function MappingOf(order: seq<string>): map<string, string>
  {
    if order == [] then map[]
    else MappingOf(order[..|order| - 1])[order[|order| - 1] := Pseudonym(|order|)]
  }

  /** The keys of the mapping are the inserted authors. */
  lemma {:induction false} MappingKeys(order: seq<string>)
    ensures forall a :: a in MappingOf(order) <==> a in order
  {
    if order != [] {
      var prev := order[..|order| - 1];
      MappingKeys(prev);
      assert order == prev + [order[|order| - 1]];
    }
  }

  lemma {:induction false} MappingOfAt(order: seq<string>, i: nat)
    requires NoDuplicates(order) && i < |order|
    ensures order[i] in MappingOf(order) && MappingOf(order)[order[i]] == Pseudonym(i + 1)
  {
    if i < |order| - 1 {
      var prev := order[..|order| - 1];
      MappingOfAt(prev, i);
    }
  }

  /** What `get_anonymized_author` returns for an author once `order` holds the
      keys of the mapping. */
  function Alias(order: seq<string>, author: string): string
    requires author == Exempt || author in order
  {
    MappingKeys(order);
    if author == Exempt then author else MappingOf(order)[author]
  }

  /** The author column after the pass. */
  function AnonymizedAuthors(authors: seq<string>): (r: seq<string>)
    ensures |r| == |authors|
  {
    var order := DistinctAuthors(authors);
    DistinctAuthorsMembers(authors);
    seq(|authors|, i requires 0 <= i < |authors| => Alias(order, authors[i]))
  }

  /** `re.sub(re.escape(pat), rep, s)` with a non-empty pattern: literal,
      left-to-right, non-overlapping replacement of every occurrence. */
  function ReplaceAll(s: string, pat: string, rep: string): string
    requires pat != []
    decreases |s|
  {
    if |s| < |pat| then s
    else if pat <= s then rep + ReplaceAll(s[|pat|..], pat, rep)
    else [s[0]] + ReplaceAll(s[1..], pat, rep)
  }

  /** `pat` occurs somewhere in `s`. */
  predicate Contains(s: string, pat: string)
    decreases |s|
  {
    pat <= s || (s != [] && Contains(s[1..], pat))
  }

  /** `anonymize_text`: one replace-all per mapping entry, in insertion order,
      of `'@' + original` by `'@' + pseudonym`. */
  function Rewritten(text: string, order: seq<string>): string
  {
    if order == [] then text
    else
      var n := |order|;
      ReplaceAll(Rewritten(text, order[..n - 1]), "@" + order[n - 1], "@" + Pseudonym(n))
  }

  /** The comment_nl column after the pass. */
  function AnonymizedTexts(authors: seq<string>, texts: seq<string>): (r: seq<string>)
    ensures |r| == |texts|
  {
    var order := DistinctAuthors(authors);
    seq(|texts|, i requires 0 <= i < |texts| => Rewritten(texts[i], order))
  }

  /** The state of `anonymize_comments`: the dictionary `author_mapping` and
      the `nonlocal` counter `user_count`. */
  class AuthorMapping {
    var order: seq<string>
    var mapping: map<string, string>
    var userCount: nat

    ghost predicate Valid()
      reads this
    {
      && NoDuplicates(order)
      && Exempt !in order
      && mapping == MappingOf(order)
      && userCount == |order| + 1
    }

    constructor ()
      ensures Valid() && order == []
    {
      order := [];
      mapping := map[];
      userCount := 1;
    }

    /** `get_anonymized_author`. */
    method GetAnonymizedAuthor(author: string) returns (alias: string)
      requires Valid()
      modifies this
      ensures Valid()
      ensures order == if author == Exempt || author in old(order) then old(order) else old(order) + [author]
      ensures alias == Alias(order, author)
    {
      if author == Exempt {
        return author;
      }
      MappingKeys(order);
      if author !in mapping {
        mapping := mapping[author := "User" + FromNat(userCount)];
        order := order + [author];
        userCount := userCount + 1;
        assert order[..|order| - 1] == old(order);
      }
      alias := mapping[author];
    }

    /** `anonymize_text`. */
    method AnonymizeText(comment: string) returns (r: string)
      requires Valid()
      ensures r == Rewritten(comment, order)
    {
      r := comment;
      for i := 0 to |order|
        invariant r == Rewritten(comment, order[..i])
      {
        MappingOfAt(order, i);
        assert order[..i + 1][..i] == order[..i];
        r := ReplaceAll(r, "@" + order[i], "@" + mapping[order[i]]);
      }
      assert order[..|order|] == order;
    }
  }

  /** The mapping only grows: the keys seen after a prefix of the author
      column come first, in the same order, among the final keys. */
  lemma {:induction false} DistinctAuthorsPrefix(authors: seq<string>, i: nat)
    requires i <= |authors|
    ensures DistinctAuthors(authors[..i]) <= DistinctAuthors(authors)
    decreases |authors|
  {
    if i < |authors| {
      var prev := authors[..|authors| - 1];
      assert prev[..i] == authors[..i];
      DistinctAuthorsPrefix(prev, i);
    } else {
      assert authors[..i] == authors;
    }
  }

  /** So an author keeps the pseudonym it was first given. */
  lemma AliasPrefix(early: seq<string>, order: seq<string>, y: string)
    requires early <= order && NoDuplicates(order)
    requires y == Exempt || y in early
    ensures Alias(early, y) == Alias(order, y)
  {
    if y != Exempt {
      var k :| 0 <= k < |early| && early[k] == y;
      MappingOfAt(early, k);
      MappingOfAt(order, k);
    }
  }

  /** One step of the author pass: how the keys grow. */
  lemma AuthorStepKeys(authors: seq<string>, i: nat)
    requires i < |authors|
    ensures var before := DistinctAuthors(authors[..i]);
      DistinctAuthors(authors[..i + 1])
      == if authors[i] == Exempt || authors[i] in before then before else before + [authors[i]]
  {
    assert authors[..i + 1][..i] == authors[..i];
  }

  /** Where an author sits among the keys once its row has been processed. */
  lemma KeyIndex(authors: seq<string>, i: nat) returns (k: nat)
    requires i < |authors| && authors[i] != Exempt
    ensures k < |DistinctAuthors(authors[..i + 1])| && DistinctAuthors(authors[..i + 1])[k] == authors[i]
  {
    AuthorStepKeys(authors, i);
    var before := DistinctAuthors(authors[..i]);
    if authors[i] in before {
      k :| 0 <= k < |before| && before[k] == authors[i];
    } else {
      k := |before|;
    }
  }

  /** One step of the author pass: the pseudonym handed out is the one the
      author has in the final author column. */
  lemma AuthorStepAlias(authors: seq<string>, i: nat)
    requires i < |authors|
    ensures authors[i] == Exempt || authors[i] in DistinctAuthors(authors[..i + 1])
    ensures authors[i] == Exempt || authors[i] in DistinctAuthors(authors[..i + 1]) ==>
      Alias(DistinctAuthors(authors[..i + 1]), authors[i]) == AnonymizedAuthors(authors)[i]
  {
    if authors[i] != Exempt {
      var early, order := DistinctAuthors(authors[..i + 1]), DistinctAuthors(authors);
      var k := KeyIndex(authors, i);
      DistinctAuthorsPrefix(authors, i + 1);
      DistinctAuthorsDistinct(authors[..i + 1]);
      DistinctAuthorsDistinct(authors);
      assert order[k] == authors[i];
      MappingOfAt(early, k);
      MappingOfAt(order, k);
    }
  }

  /** The comments table, reduced to the two columns the anonymiser
      reassigns. */
  class CommentsFrame {
    var author: seq<string>
    var commentNl: seq<string>

    constructor (author: seq<string>, commentNl: seq<string>)
      ensures this.author == author && this.commentNl == commentNl
    {
      this.author := author;
      this.commentNl := commentNl;
    }
  }

  /** One step of the author pass, stated on the values the loop holds. */
  lemma AuthorStep(authors: seq<string>, i: nat, before: seq<string>, column: seq<string>)
    requires i < |authors| && before == DistinctAuthors(authors[..i])
    requires column == AnonymizedAuthors(authors)[..i]
    ensures var after := if authors[i] == Exempt || authors[i] in before then before else before + [authors[i]];
      && after == DistinctAuthors(authors[..i + 1])
      && (authors[i] == Exempt || authors[i] in after)
      && column + [Alias(after, authors[i])] == AnonymizedAuthors(authors)[..i + 1]
  {
    AuthorStepKeys(authors, i);
    AuthorStepAlias(authors, i);
  }

  /** `comments['author'].apply(get_anonymized_author)`: the new author
      column, with the mapping filled in as a side effect. */
  method AnonymizeAuthorColumn(authorMapping: AuthorMapping, authors: seq<string>) returns (column: seq<string>)
    requires authorMapping.Valid() && authorMapping.order == []
    modifies authorMapping
    ensures authorMapping.Valid() && authorMapping.order == DistinctAuthors(authors)
    ensures authorMapping.userCount == 1 + |set a | a in authors && a != Exempt|
    ensures column == AnonymizedAuthors(authors)
  {
    ghost var target := AnonymizedAuthors(authors);
    column := [];
    for i := 0 to |authors|
      invariant authorMapping.Valid()
      invariant authorMapping.order == DistinctAuthors(authors[..i])
      invariant column == target[..i]
    {
      AuthorStep(authors, i, authorMapping.order, column);
      var alias := authorMapping.GetAnonymizedAuthor(authors[i]);
      column := column + [alias];
    }
    assert authors[..|authors|] == authors;
    DistinctAuthorCount(authors);
  }

  /** `comments['comment_nl'].apply(anonymize_text)`. */
  method AnonymizeTextColumn(authorMapping: AuthorMapping, texts: seq<string>) returns (column: seq<string>)
    requires authorMapping.Valid()
    ensures |column| == |texts|
    ensures forall j :: 0 <= j < |texts| ==> column[j] == Rewritten(texts[j], authorMapping.order)
  {
    column := [];
    for j := 0 to |texts|
      invariant |column| == j
      invariant forall k :: 0 <= k < j ==> column[k] == Rewritten(texts[k], authorMapping.order)
    {
      var text := authorMapping.AnonymizeText(texts[j]);
      column := column + [text];
    }
  }

  /** `anonymize_comments`: both columns are rebuilt and assigned back to the
      table, the author column first. */
  method AnonymizeComments(comments: CommentsFrame)
    modifies comments
    ensures comments.author == AnonymizedAuthors(old(comments.author))
    ensures comments.commentNl == AnonymizedTexts(old(comments.author), old(comments.commentNl))
  {
    var authorMapping := new AuthorMapping();
    var authors := comments.author;
    comments.author := AnonymizeAuthorColumn(authorMapping, authors);
    comments.commentNl := AnonymizeTextColumn(authorMapping, comments.commentNl);
  }

  // ---------------------------------------------------------------------
  // What the anonymiser guarantees
  // ---------------------------------------------------------------------

  /** The exempt author keeps its name; every other author becomes `User<k>`
      where it is the k-th distinct author, so `1 <= k < user_count`. */
  lemma AuthorAlias(authors: seq<string>, i: nat) returns (k: nat)
    requires i < |authors|
    ensures authors[i] == Exempt ==> k == 0 && AnonymizedAuthors(authors)[i] == Exempt
    ensures authors[i] != Exempt ==>
      && 1 <= k <= |DistinctAuthors(authors)|
      && DistinctAuthors(authors)[k - 1] == authors[i]
      && AnonymizedAuthors(authors)[i] == Pseudonym(k)
  {
    if authors[i] == Exempt {
      k := 0;
    } else {
      var order := DistinctAuthors(authors);
      DistinctAuthorsMembers(authors);
      DistinctAuthorsDistinct(authors);
      var j :| 0 <= j < |order| && order[j] == authors[i];
      MappingOfAt(order, j);
      k := j + 1;
    }
  }

  /** An output author is the exempt identity exactly when the input was. */
  lemma ExemptPassesThrough(authors: seq<string>, i: nat)
    requires i < |authors|
    ensures AnonymizedAuthors(authors)[i] == Exempt <==> authors[i] == Exempt
  {
    var k := AuthorAlias(authors, i);
    if authors[i] != Exempt {
      PseudonymIsNotExempt(k);
    }
  }

  /** Two rows get the same output author exactly when they had the same
      author: the pseudonyms are stable and the mapping is injective. */
  lemma AliasInjective(authors: seq<string>, i: nat, j: nat)
    requires i < |authors| && j < |authors|
    ensures AnonymizedAuthors(authors)[i] == AnonymizedAuthors(authors)[j] <==> authors[i] == authors[j]
  {
    var ki := AuthorAlias(authors, i);
    var kj := AuthorAlias(authors, j);
    ExemptPassesThrough(authors, i);
    ExemptPassesThrough(authors, j);
    if authors[i] != Exempt && authors[j] != Exempt {
      PseudonymInjective(ki, kj);
    }
  }

  /** The exempt identity is never a key of the mapping, so no replacement
      in `anonymize_text` is made for it. */
  lemma ExemptNeverMapped(authors: seq<string>)
    ensures Exempt !in MappingOf(DistinctAuthors(authors))
    ensures forall a :: a in DistinctAuthors(authors) ==> "@" + a != "@" + Exempt
  {
    DistinctAuthorsDistinct(authors);
    MappingKeys(DistinctAuthors(authors));
    forall a | a in DistinctAuthors(authors)
      ensures "@" + a != "@" + Exempt
    {
      assert a == ("@" + a)[1..];
    }
  }

  /** Position of the first occurrence of `x` in `s`. */
  function FirstIndex(s: seq<string>, x: string): (r: nat)
    requires x in s
    ensures r < |s| && s[r] == x && x !in s[..r]
    decreases |s|
  {
    var prev := s[..|s| - 1];
    if x in prev then
      var r := FirstIndex(prev, x);
      assert s[..r] == prev[..r];
      r
    else |s| - 1
  }

  /** Pseudonyms are handed out in order of first appearance: the author
      that gets `User<p+1>` first appears before the one that gets `User<q+1>`. */
  lemma {:induction false} FirstEncounterOrder(authors: seq<string>, p: nat, q: nat)
    requires p < q < |DistinctAuthors(authors)|
    ensures DistinctAuthors(authors)[p] in authors && DistinctAuthors(authors)[q] in authors
    ensures FirstIndex(authors, DistinctAuthors(authors)[p]) < FirstIndex(authors, DistinctAuthors(authors)[q])
  {
    var prev := authors[..|authors| - 1];
    var order, before := DistinctAuthors(authors), DistinctAuthors(prev);
    DistinctAuthorsMembers(authors);
    DistinctAuthorsMembers(prev);
    assert order[p] == before[p];
    if q < |before| {
      assert order[q] == before[q];
      FirstEncounterOrder(prev, p, q);
    } else {
      assert order[q] == authors[|authors| - 1] && order[q] !in prev;
    }
  }

  lemma {:induction false} DistinctCard(s: seq<string>)
    requires NoDuplicates(s)
    ensures |set x | x in s| == |s|
  {
    if s != [] {
      var prev := s[..|s| - 1];
      DistinctCard(prev);
      assert (set x | x in s) == (set x | x in prev) + {s[|s| - 1]};
    }
  }

  /** After the author pass `user_count` is one more than the number of
      distinct non-exempt authors. */
  lemma DistinctAuthorCount(authors: seq<string>)
    ensures |DistinctAuthors(authors)| == |set a | a in authors && a != Exempt|
  {
    var order := DistinctAuthors(authors);
    DistinctAuthorsDistinct(authors);
    DistinctAuthorsMembers(authors);
    DistinctCard(order);
    assert (set x | x in order) == (set a | a in authors && a != Exempt);
  }

  lemma {:induction false} ReplaceAllAbsent(s: string, pat: string, rep: string)
    requires pat != [] && !Contains(s, pat)
    ensures ReplaceAll(s, pat, rep) == s
    decreases |s|
  {
    if |s| >= |pat| {
      ReplaceAllAbsent(s[1..], pat, rep);
      assert s == [s[0]] + s[1..];
    }
  }

  /** A text that mentions none of the authors is left as it was. */
  lemma {:induction false} RewrittenAbsent(text: string, order: seq<string>)
    requires forall i :: 0 <= i < |order| ==> !Contains(text, "@" + order[i])
    ensures Rewritten(text, order) == text
  {
    if order != [] {
      var n := |order|;
      RewrittenAbsent(text, order[..n - 1]);
      ReplaceAllAbsent(text, "@" + order[n - 1], "@" + Pseudonym(n));
    }
  }

  /** So a comment that mentions none of the column's authors is unchanged. */
  lemma UnmentionedTextUnchanged(authors: seq<string>, texts: seq<string>, j: nat)
    requires j < |texts|
    requires forall i :: 0 <= i < |authors| ==> !Contains(texts[j], "@" + authors[i])
    ensures AnonymizedTexts(authors, texts)[j] == texts[j]
  {
    var order := DistinctAuthors(authors);
    DistinctAuthorsMembers(authors);
    forall i | 0 <= i < |order|
      ensures !Contains(texts[j], "@" + order[i])
    {
      assert order[i] in order;
      var k :| 0 <= k < |authors| && authors[k] == order[i];
    }
    RewrittenAbsent(texts[j], order);
  }

  lemma {:induction false} ContainsPrefix(s: string, pat: string, p: string)
    requires p <= pat && Contains(s, pat)
    ensures Contains(s, p)
    decreases |s|
  {
    if !(pat <= s) {
      ContainsPrefix(s[1..], pat, p);
    }
  }

  /** Display names already start with '@' (as the exempt name does), so each
      pattern is '@@' followed by the name: a text without "@@" in it, such as
      one that mentions an author as "@name", is never rewritten. */
  lemma DoubleAtPatterns(authors: seq<string>, texts: seq<string>, j: nat)
    requires j < |texts|
    requires forall i :: 0 <= i < |authors| ==> authors[i] != [] && authors[i][0] == '@'
    requires !Contains(texts[j], "@@")
    ensures AnonymizedTexts(authors, texts)[j] == texts[j]
  {
    forall i | 0 <= i < |authors|
      ensures !Contains(texts[j], "@" + authors[i])
    {
      if Contains(texts[j], "@" + authors[i]) {
        ContainsPrefix(texts[j], "@" + authors[i], "@@");
      }
    }
    UnmentionedTextUnchanged(authors, texts, j);
  }

  lemma {:induction false} NoFirstCharNoMatch(s: string, pat: string)
    requires pat != [] && pat[0] !in s
    ensures !Contains(s, pat)
    decreases |s|
  {
    if s != [] {
      assert s[0] in s;
      NoFirstCharNoMatch(s[1..], pat);
    }
  }

  /** The exempt name starts with its only '@'. */
  lemma ExemptHasOneAt()
    ensures forall i :: 1 <= i < |Exempt| ==> Exempt[i] != '@'
  {
  }

  /** The replacement has no word boundary: when an author's name is a
      proper prefix of the exempt name (say "@Univ"), a mention of the exempt
      identity is rewritten after all. */
  lemma ExemptMentionRewritten(author: string, text: string)
    requires author != [] && author < Exempt
    requires text == "@" + Exempt
    ensures AnonymizedTexts([author], [text]) == ["@User1" + Exempt[|author|..]]
  {
    var pat, rest := "@" + author, Exempt[|author|..];
    assert text == pat + rest;
    assert DistinctAuthors([author]) == [author];
    assert "@" + Pseudonym(1) == "@User1" by {
      assert FromNat(1) == "1";
    }
    assert [author][..0] == [];
    assert Rewritten(text, [author]) == ReplaceAll(text, pat, "@User1");
    assert pat <= text && text[|pat|..] == rest;
    assert '@' !in rest by {
      ExemptHasOneAt();
    }
    NoFirstCharNoMatch(rest, pat);
    ReplaceAllAbsent(rest, pat, "@User1");
  }

  /** The first-encounter numbering on a small column. */
  lemma AuthorExample()
    ensures AnonymizedAuthors(["@a", "@b", "@a", Exempt]) == ["User1", "User2", "User1", Exempt]
  {
    var authors := ["@a", "@b", "@a", Exempt];
    assert "@a" != Exempt && "@b" != Exempt;
    assert authors[..1] == ["@a"] && authors[..2] == ["@a", "@b"] && authors[..3] == ["@a", "@b", "@a"];
    assert DistinctAuthors(authors[..1]) == ["@a"];
    assert DistinctAuthors(authors[..2]) == ["@a", "@b"];
    assert ["@a", "@b", "@a"][..2] == ["@a", "@b"] && "@a" in ["@a", "@b"];
    assert DistinctAuthors(authors[..3]) == ["@a", "@b"];
    assert DistinctAuthors(authors) == ["@a", "@b"];
    assert Pseudonym(1) == "User1" && Pseudonym(2) == "User2" by {
      assert FromNat(1) == "1" && FromNat(2) == "2";
    }
    assert MappingOf(["@a", "@b"]) == map["@a" := "User1", "@b" := "User2"] by {
      assert ["@a", "@b"][..1] == ["@a"];
    }
  }
}
