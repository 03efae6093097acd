/**
  The lookup-and-redact pipeline of the `/api/search` route: split the bot's
  reply into lines, keep the lines that carry a recognized label, mask the
  second half of each kept line, and assemble the report under a fixed header.
 */
module Redaction {
  import opened Strings

  /** The six labels a kept line must mention, in lower case. */
  const Labels: seq<string> := ["telephone", "adres", "full name", "father", "region", "document"]

  /** The vendor signature whose lines are always dropped. */
  const Denied: string := "hiteckgroop"

  /** The warning sign, U+26A0 with the emoji presentation selector U+FE0F. */
  const Warning: string := "\U{26A0}\U{FE0F}"

  const HeaderTitle: string := Warning + " [WELFARE OSINT - INVESTIGATIVE DASHBOARD]"
  /** Written as two literals: the verifier checks that each holds no line break,
      which it does not manage for the 49-character literal in one piece. */
  const HeaderStatus: string := "Status: Authorized Search" + " | Mode: Partial Privacy"
  const HeaderRule: string := Repeat('-', 43)

  /** The warning header every report starts with: three lines and a blank line. */
  const Header: string := HeaderTitle + "\n" + HeaderStatus + "\n" + HeaderRule + "\n\n"

  /** The notice that stands in for the lines when none survives the filter. */
  const NotFound: string := Warning + " Information Not Found in Databases."

  /** The lower-cased line `l` mentions one of the six labels. */
  predicate HasLabel(l: string)
  {
    Contains(l, "telephone") || Contains(l, "adres") || Contains(l, "full name") ||
    Contains(l, "father") || Contains(l, "region") || Contains(l, "document")
  }

  /** The filter's test: the lower-cased line mentions a label and not the vendor signature. */
  predicate IsKept(line: string)
    ensures IsKept(line) ==> |line| > 0
  {
    var l := Lower(line);
    HasLabel(l) && !Contains(l, Denied)
  }

  /** No line of `lines` passes the filter. */
  predicate NoneKept(lines: seq<string>)
  {
    forall i :: 0 <= i < |lines| ==> !IsKept(lines[i])
  }

  /** `lines.filter(IsKept)`: the kept lines, in their original order. */
  function KeepLines(lines: seq<string>): (kept: seq<string>)
    ensures forall x :: x in kept ==> x in lines && IsKept(x)
    decreases |lines|
  {
    if lines == [] then []
    else
      var init := lines[..|lines| - 1];
      var last := lines[|lines| - 1];
      assert forall x :: x in init ==> x in lines;
      KeepLines(init) + (if IsKept(last) then [last] else [])
  }

  /** The positions of the kept lines: increasing, each one kept, and every kept position listed. */
  function KeptPositions(lines: seq<string>): (ps: seq<nat>)
    ensures forall k :: 0 <= k < |ps| ==> ps[k] < |lines| && IsKept(lines[ps[k]])
    ensures forall k, m :: 0 <= k < m < |ps| ==> ps[k] < ps[m]
    ensures forall i :: 0 <= i < |lines| && IsKept(lines[i]) ==> i in ps
    decreases |lines|
  {
    if lines == [] then []
    else
      var n := |lines| - 1;
      var ps := KeptPositions(lines[..n]);
      assert forall k :: 0 <= k < |ps| ==> lines[..n][ps[k]] == lines[ps[k]];
      assert forall i :: 0 <= i < n ==> lines[..n][i] == lines[i];
      ps + (if IsKept(lines[n]) then [n] else [])
  }

  /** The filter returns exactly the lines at the kept positions, in that order:
      every kept line once, in its place in the reply, and nothing else. */
  lemma {:induction false} KeepLinesSelects(lines: seq<string>)
    ensures |KeepLines(lines)| == |KeptPositions(lines)|
    ensures forall k :: 0 <= k < |KeepLines(lines)| ==>
      KeepLines(lines)[k] == lines[KeptPositions(lines)[k]]
    decreases |lines|
  {
    if lines != [] {
      var n := |lines| - 1;
      KeepLinesSelects(lines[..n]);
      var kl := KeepLines(lines[..n]);
      var ps := KeptPositions(lines[..n]);
      var tail := if IsKept(lines[n]) then [lines[n]] else [];
      var ptail := if IsKept(lines[n]) then [n] else [];
      assert KeepLines(lines) == kl + tail;
      assert KeptPositions(lines) == ps + ptail;
      forall k | 0 <= k < |kl + tail| ensures (kl + tail)[k] == lines[(ps + ptail)[k]] {
        if k < |kl| {
          assert lines[..n][ps[k]] == lines[ps[k]];
        }
      }
    }
  }

  /** No line is kept exactly when the filter returns nothing. */
  lemma NothingKept(lines: seq<string>)
    ensures KeepLines(lines) == [] <==> NoneKept(lines)
  {
    KeepLinesSelects(lines);
    var ps := KeptPositions(lines);
    if KeepLines(lines) != [] {
      assert IsKept(lines[ps[0]]);
    }
  }

  /** The six tests of the filter are the six entries of `Labels`. */
  lemma HasLabelIff(l: string)
    ensures HasLabel(l) <==> exists tag :: tag in Labels && Contains(l, tag)
  {
    if Contains(l, "telephone") { assert "telephone" in Labels; }
    if Contains(l, "adres") { assert "adres" in Labels; }
    if Contains(l, "full name") { assert "full name" in Labels; }
    if Contains(l, "father") { assert "father" in Labels; }
    if Contains(l, "region") { assert "region" in Labels; }
    if Contains(l, "document") { assert "document" in Labels; }
  }

  /** Classification in terms of occurrences: a line is kept iff its lower-cased form holds
      some label at some index and holds the vendor signature at none. The signature
      overrides a label. */
  lemma KeptIff(line: string)
    ensures IsKept(line) <==>
      (exists tag, i :: tag in Labels && OccursAt(Lower(line), tag, i))
      && !(exists i :: OccursAt(Lower(line), Denied, i))
  {
    var l := Lower(line);
    HasLabelIff(l);
    ContainsIff(l, Denied);
    if HasLabel(l) {
      var tag :| tag in Labels && Contains(l, tag);
      ContainsIff(l, tag);
      var i :| OccursAt(l, tag, i);
    }
    if exists tag, i :: tag in Labels && OccursAt(l, tag, i) {
      var tag, i :| tag in Labels && OccursAt(l, tag, i);
      ContainsIff(l, tag);
    }
  }

  /** A label written in any mix of cases keeps the line, unless the signature is present. */
  lemma KeptWhateverTheCase(line: string, word: string)
    requires Lower(word) in Labels
    requires Contains(line, word)
    requires !Contains(Lower(line), Denied)
    ensures IsKept(line)
  {
    ContainsLower(line, word);
    HasLabelIff(Lower(line));
  }

  /** The half-line mask: the first `floor(n / 2)` characters as they are, case included,
      then one `*` per remaining character. */
  function Mask(line: string): (m: string)
    ensures |m| == |line|
    ensures forall i :: 0 <= i < |line| / 2 ==> m[i] == line[i]
    ensures forall i :: |line| / 2 <= i < |line| ==> m[i] == '*'
  {
    var splitIndex := |line| / 2;
    line[..splitIndex] + Repeat('*', |line| - splitIndex)
  }

  /** Masking a masked line changes nothing. */
  lemma MaskIdempotent(line: string)
    ensures Mask(Mask(line)) == Mask(line)
  {
    var m := Mask(line);
    assert forall i :: 0 <= i < |m| ==> Mask(m)[i] == m[i];
  }

  /** Masking reveals no word that the line did not already hold, for words without `*`. */
  lemma MaskRevealsNothingNew(line: string, word: string)
    requires '*' !in word
    requires Contains(Lower(Mask(line)), word)
    ensures Contains(Lower(line), word)
  {
    var lm := Lower(Mask(line));
    ContainsIff(lm, word);
    ContainsIff(Lower(line), word);
    var i :| OccursAt(lm, word, i);
    forall t | 0 <= t < |word| ensures i + t < |line| / 2 && Lower(line)[i + t] == word[t] {
      assert lm[i..i + |word|][t] == word[t] != '*';
      assert lm[i + t] == LowerChar(Mask(line)[i + t]);
      assert LowerChar('*') == '*';
    }
    assert Lower(line)[i..i + |word|] == word;
    assert OccursAt(Lower(line), word, i);
  }

  /** A kept line, once masked, still does not show the vendor signature. */
  lemma MaskedKeptHasNoSignature(line: string)
    requires IsKept(line)
    ensures !Contains(Lower(Mask(line)), Denied)
  {
    if Contains(Lower(Mask(line)), Denied) {
      MaskRevealsNothingNew(line, Denied);
    }
  }

  /** Masking adds no character other than `*`. */
  lemma MaskAddsOnlyStars(line: string, c: char)
    requires c != '*' && c !in line
    ensures c !in Mask(line)
  {
  }

  /** `.map(Mask)`: every kept line masked, in order. */
  function MaskAll(lines: seq<string>): (masked: seq<string>)
    ensures |masked| == |lines|
    ensures forall k :: 0 <= k < |lines| ==> masked[k] == Mask(lines[k])
  {
    seq(|lines|, k requires 0 <= k < |lines| => Mask(lines[k]))
  }

  /** `processedLines`: the masked kept lines of the reply. Line `k` is the mask of
      the `k`-th kept line of the reply, at its position there. */
  function Redact(rawData: string): (processed: seq<string>)
    ensures var lines := Split(rawData, '\n');
      var ps := KeptPositions(lines);
      |processed| == |ps| && forall k :: 0 <= k < |ps| ==> processed[k] == Mask(lines[ps[k]])
  {
    var lines := Split(rawData, '\n');
    KeepLinesSelects(lines);
    MaskAll(KeepLines(lines))
  }

  /** The report: the header, then the masked lines separated by blank lines,
      or the not-found notice when none survives. */
  function Report(rawData: string): (r: string)
    ensures |Header| <= |r| && r[..|Header|] == Header
  {
    var processed := Redact(rawData);
    Header + (if |processed| > 0 then Join(processed, "\n\n") else NotFound)
  }

  /** Every processed line is a masked kept line, so it ends with `*`. */
  lemma ProcessedEndsWithStar(rawData: string, k: int)
    requires 0 <= k < |Redact(rawData)|
    ensures |Redact(rawData)[k]| > 0 && Redact(rawData)[k][|Redact(rawData)[k]| - 1] == '*'
  {
    var kept := KeepLines(Split(rawData, '\n'));
    assert kept[k] in kept;
  }

  /** The joined lines of a non-empty result never read as the not-found notice. */
  lemma JoinedIsNotNotFound(rawData: string)
    requires Redact(rawData) != []
    ensures Join(Redact(rawData), "\n\n") != NotFound
  {
    var processed := Redact(rawData);
    ProcessedEndsWithStar(rawData, |processed| - 1);
    JoinEndsWithLast(processed, "\n\n");
    assert NotFound[|NotFound| - 1] == '.';
  }

  /** The report is the bare not-found report exactly when nothing is left after masking. */
  lemma NotFoundIffNothingProcessed(rawData: string)
    ensures Report(rawData) == Header + NotFound <==> Redact(rawData) == []
  {
    var processed := Redact(rawData);
    var body := if processed != [] then Join(processed, "\n\n") else NotFound;
    AppendCancel(Header, body, NotFound);
    if processed != [] {
      JoinedIsNotNotFound(rawData);
    }
  }

  /** Nothing is left after masking exactly when no line of the reply is kept. */
  lemma NothingProcessedIff(rawData: string)
    ensures Redact(rawData) == [] <==> NoneKept(Split(rawData, '\n'))
  {
    var lines := Split(rawData, '\n');
    NothingKept(lines);
    assert |Redact(rawData)| == |KeepLines(lines)|;
  }

  /** The report is the bare not-found report exactly when no line of the reply is kept. */
  lemma NotFoundIff(rawData: string)
    ensures Report(rawData) == Header + NotFound <==> NoneKept(Split(rawData, '\n'))
  {
    NotFoundIffNothingProcessed(rawData);
    NothingProcessedIff(rawData);
  }

  /** An empty reply, which is what a missing message reads as, yields the not-found report. */
  lemma EmptyReplyNotFound()
    ensures Report("") == Header + NotFound
  {
    NotFoundIff("");
    assert Split("", '\n') == [""];
    assert !IsKept("");
  }

  /** The masked lines with a blank line between neighbours: how they read line by line. */
  function Spread(masked: seq<string>): (lines: seq<string>)
    ensures |lines| == if masked == [] then 0 else 2 * |masked| - 1
    ensures forall k :: 0 <= k < |lines| ==> lines[k] == if k % 2 == 0 then masked[k / 2] else ""
    decreases |masked|
  {
    if |masked| <= 1 then masked else [masked[0], ""] + Spread(masked[1..])
  }

  /** Joining with a blank line is joining the spread lines with a line break. */
  lemma {:induction false} JoinBlankLines(masked: seq<string>)
    ensures Join(masked, "\n\n") == Join(Spread(masked), "\n")
    decreases |masked|
  {
    if |masked| > 1 {
      JoinBlankLines(masked[1..]);
      var sp := Spread(masked);
      assert sp[1..] == [""] + Spread(masked[1..]);
      assert sp[2..] == Spread(masked[1..]);
    }
  }

  /** No processed line holds a line break: a split line holds none and masking adds only `*`. */
  lemma ProcessedHasNoBreak(rawData: string)
    ensures forall k :: 0 <= k < |Redact(rawData)| ==> '\n' !in Redact(rawData)[k]
  {
    var kept := KeepLines(Split(rawData, '\n'));
    forall k | 0 <= k < |kept| ensures '\n' !in Mask(kept[k]) {
      assert kept[k] in kept;
      MaskAddsOnlyStars(kept[k], '\n');
    }
  }

  /** The header lines hold no line break. */
  lemma HeaderLinesUnbroken()
    ensures '\n' !in HeaderTitle && '\n' !in HeaderStatus && '\n' !in HeaderRule
  {
  }

  /** The not-found notice holds no line break. */
  lemma NoticeUnbroken()
    ensures '\n' !in NotFound
  {
  }

  /** Splitting the header off a report leaves its three lines and a blank line. */
  lemma SplitHeader(body: string)
    ensures Split(Header + body, '\n') == [HeaderTitle, HeaderStatus, HeaderRule, ""] + Split(body, '\n')
  {
    HeaderLinesUnbroken();
    SplitThreeLines(HeaderTitle, HeaderStatus, HeaderRule, body);
  }

  /** What follows the header, line by line: the masked lines with blank lines between
      them, or the single not-found line. */
  lemma BodyLines(rawData: string)
    ensures var processed := Redact(rawData);
      Split(if processed == [] then NotFound else Join(processed, "\n\n"), '\n') ==
        (if processed == [] then [NotFound] else Spread(processed))
  {
    var processed := Redact(rawData);
    if processed == [] {
      NoticeUnbroken();
      SplitWithoutSep(NotFound, '\n');
    } else {
      JoinBlankLines(processed);
      ProcessedHasNoBreak(rawData);
      SplitJoin(Spread(processed), '\n');
    }
  }

  /** The report read line by line: the three header lines and a blank line, then either
      the masked lines with blank lines between them or the single not-found line. */
  lemma ReportLines(rawData: string)
    ensures var processed := Redact(rawData);
      Split(Report(rawData), '\n') ==
        [HeaderTitle, HeaderStatus, HeaderRule, ""] +
        (if processed == [] then [NotFound] else Spread(processed))
  {
    var processed := Redact(rawData);
    BodyLines(rawData);
    SplitHeader(if processed == [] then NotFound else Join(processed, "\n\n"));
  }

  /** No processed line shows the vendor signature, in any case. */
  lemma ProcessedHasNoSignature(rawData: string)
    ensures forall k :: 0 <= k < |Redact(rawData)| ==> !Contains(Lower(Redact(rawData)[k]), Denied)
  {
    var kept := KeepLines(Split(rawData, '\n'));
    forall k | 0 <= k < |kept| ensures !Contains(Lower(Mask(kept[k])), Denied) {
      assert kept[k] in kept;
      MaskedKeptHasNoSignature(kept[k]);
    }
  }
}
