/**
 * Block classification (`src/textblock.py`): which of six kinds a block of
 * Markdown is. `block_to_block_type` tries its rules in a fixed order and the
 * first that holds wins; a block no rule claims is a paragraph.
 *
 * The two regular expressions of the classifier are written out as functions
 * with the meaning Python's `re.match` gives them (anchored at the start,
 * greedy, backtracking).
 */
module TextBlocks {
  import opened Wrappers
  import opened Strings

  datatype BlockType = Paragraph | Heading | Code | Quote | UnorderedList | OrderedList

  /** The string value of each member of the `BlockType` enum. */
  function Value(t: BlockType): string {
    match t
    case Paragraph => "paragraph"
    case Heading => "heading"
    case Code => "code"
    case Quote => "quote"
    case UnorderedList => "unordered_list"
    case OrderedList => "ordered_list"
  }

  /** No two members of the enum share a value, so none is an alias of another. */
  lemma ValuesDiffer(a: BlockType, b: BlockType)
    requires a != b
    ensures Value(a) != Value(b)
  {
  }

  // ----- headings: re.match(r"(?P<pounds>#*) ", block) -----

  /** The number of `#` characters the string starts with. */
  function LeadingPounds(s: string): (n: nat)
    ensures n <= |s|
    ensures forall i :: 0 <= i < n ==> s[i] == '#'
    ensures n < |s| ==> s[n] != '#'
    decreases |s|
  {
    if s != [] && s[0] == '#' then 1 + LeadingPounds(s[1..]) else 0
  }

  /** The pattern `#* ` matches the start of `block` with `k` pounds. */
  predicate PoundsAt(block: string, k: nat) {
    k < |block| && (forall i :: 0 <= i < k ==> block[i] == '#') && block[k] == ' '
  }

  /** The `pounds` group of the heading pattern, when the pattern matches. `#*`
      takes every leading `#`; giving one back leaves a `#`, never the space,
      after the group, so the greedy attempt is the only one that can succeed. */
  function PoundsMatch(block: string): Option<nat> {
    var n := LeadingPounds(block);
    if n < |block| && block[n] == ' ' then Some(n) else None
  }

  /** The pattern matches in exactly one way, and `PoundsMatch` finds it. */
  lemma PoundsMatchSpec(block: string)
    ensures PoundsMatch(block).Some? ==> PoundsAt(block, PoundsMatch(block).value)
    ensures forall k: nat :: PoundsAt(block, k) ==> PoundsMatch(block) == Some(k)
  {
    var n := LeadingPounds(block);
    forall k: nat | PoundsAt(block, k)
      ensures PoundsMatch(block) == Some(k)
    {
      if k < n {
        assert false;
      } else if n < k {
        assert false;
      }
    }
  }

  /** The heading rule of `block_to_block_type`. */
  predicate IsHeading(block: string) {
    match PoundsMatch(block)
    case Some(nbPounds) => 0 < nbPounds < 7
    case None => false
  }

  /** A block is a heading exactly when it opens with one to six `#` and a space. */
  lemma HeadingIff(block: string)
    ensures IsHeading(block) <==> exists k :: 1 <= k <= 6 && PoundsAt(block, k)
  {
    PoundsMatchSpec(block);
  }

  // ----- code, quote and unordered list -----

  /** The code rule: the block starts and ends with a fence (the two may overlap). */
  predicate IsCode(block: string) {
    StartsWith(block, "```") && EndsWith(block, "```")
  }

  /** `block.split("\n")`. */
  function Lines(block: string): (lines: seq<string>)
    ensures |lines| >= 1
  {
    Split(block, "\n")
  }

  predicate AllQuoted(lines: seq<string>) {
    forall i :: 0 <= i < |lines| ==> StartsWith(lines[i], ">")
  }

  predicate AllItems(lines: seq<string>) {
    forall i :: 0 <= i < |lines| ==> StartsWith(lines[i], "- ")
  }

  // ----- ordered list lines: re.match(r"(?P<num>\d+). ", line) -----

  /** `\d`, restricted to ASCII digits. */
  predicate IsDigit(c: char) {
    '0' <= c <= '9'
  }

  predicate AllDigits(s: string) {
    forall i :: 0 <= i < |s| ==> IsDigit(s[i])
  }

  function DigitValue(c: char): nat
    requires IsDigit(c)
  {
    c as int - '0' as int
  }

  /** The number of digits the string starts with. */
  function DigitRun(s: string): (n: nat)
    ensures n <= |s|
    ensures forall i :: 0 <= i < n ==> IsDigit(s[i])
    ensures n < |s| ==> !IsDigit(s[n])
    decreases |s|
  {
    if s != [] && IsDigit(s[0]) then 1 + DigitRun(s[1..]) else 0
  }

  /** `int(digits)`; leading zeros are allowed. */
  function DecimalValue(digits: string): (v: nat)
    requires AllDigits(digits)
    ensures digits != [] && digits[0] == '0' ==> v == DecimalValue(digits[1..])
  {
    if digits == [] then 0
    else
      var init := digits[..|digits| - 1];
      assert |digits| > 1 ==> init[1..] == digits[1..][..|digits| - 2];
      10 * DecimalValue(init) + DigitValue(digits[|digits| - 1])
  }

  /** What may follow a group of `k` digits: the unescaped `.` (any character but a
      newline), then a space. */
  predicate Fits(line: string, k: nat) {
    k + 1 < |line| && line[k] != '\n' && line[k + 1] == ' '
  }

  /** Backtracking `\d+` from a group of `k` digits down to one: the first group length
      after which the rest of the pattern matches. */
  function GroupUpTo(line: string, k: nat): (r: Option<nat>)
    requires k <= DigitRun(line)
    ensures r.Some? ==> 1 <= r.value <= k && Fits(line, r.value)
                        && forall j :: r.value < j <= k ==> !Fits(line, j)
    ensures r.None? ==> forall j :: 1 <= j <= k ==> !Fits(line, j)
    decreases k
  {
    if k == 0 then None
    else if Fits(line, k) then Some(k)
    else GroupUpTo(line, k - 1)
  }

  /** The length of the `num` group, when the pattern matches. */
  function NumberGroup(line: string): Option<nat> {
    GroupUpTo(line, DigitRun(line))
  }

  /** `k` leading digits after which the rest of the pattern matches. */
  predicate Candidate(line: string, k: nat) {
    1 <= k <= |line| && AllDigits(line[..k]) && Fits(line, k)
  }

  /** The regular expression's match: the pattern matches exactly when some group of
      leading digits can be followed by the rest of it, and the group is then the
      longest such. */
  lemma NumberGroupSpec(line: string)
    ensures NumberGroup(line).Some? ==>
              Candidate(line, NumberGroup(line).value)
              && forall j: nat :: Candidate(line, j) ==> j <= NumberGroup(line).value
    ensures NumberGroup(line).None? ==> forall j: nat :: !Candidate(line, j)
  {
    var run := DigitRun(line);
    forall j: nat | Candidate(line, j)
      ensures j <= run
    {
      if run < j {
        assert false;
      }
    }
    if NumberGroup(line).Some? {
      var k := NumberGroup(line).value;
      assert AllDigits(line[..k]) by {
        forall i | 0 <= i < k
          ensures IsDigit(line[..k][i])
        {
          assert line[..k][i] == line[i];
        }
      }
    }
  }

  /** `int(match.group("num"))` for a line the pattern matches. */
  function LineNumber(line: string): Option<nat> {
    match NumberGroup(line)
    case None => None
    case Some(k) =>
      assert AllDigits(line[..k]) by {
        assert forall i :: 0 <= i < k ==> line[..k][i] == line[i];
      }
      Some(DecimalValue(line[..k]))
  }

  /** The lines read as the numbers 1, 2, 3, ... in order. */
  predicate Numbered(lines: seq<string>) {
    forall j :: 0 <= j < |lines| ==> LineNumber(lines[j]) == Some(j + 1)
  }

  // ----- the classifier -----

  /** The rule chain of `block_to_block_type`: the first rule that holds wins. */
  function Classify(block: string): BlockType {
    if IsHeading(block) then Heading
    else if IsCode(block) then Code
    else if AllQuoted(Lines(block)) then Quote
    else if AllItems(Lines(block)) then UnorderedList
    else if Numbered(Lines(block)) then OrderedList
    else Paragraph
  }

  /** `block_to_block_type`. The ordered-list rule is the loop that checks each line's
      number against the previous one and stops at the first mismatch. */
  method BlockToBlockType(block: string) returns (r: BlockType)
    ensures r == Classify(block)
  {
    var pounds := PoundsMatch(block);
    if pounds.Some? {
      var nbPounds := pounds.value;
      if nbPounds > 0 && nbPounds < 7 {
        return Heading;
      }
    }
    if StartsWith(block, "```") && EndsWith(block, "```") {
      return Code;
    }
    var lines := Split(block, "\n");
    if AllQuoted(lines) {
      return Quote;
    }
    if AllItems(lines) {
      return UnorderedList;
    }
    var isOrdered := CheckNumbering(lines);
    if isOrdered {
      return OrderedList;
    }
    return Paragraph;
  }

  /** The loop of `block_to_block_type` over the lines: each line must read as the
      number after the previous line's, starting from 1, and the first that does not
      ends the loop. */
  method CheckNumbering(lines: seq<string>) returns (isOrdered: bool)
    ensures isOrdered <==> Numbered(lines)
  {
    isOrdered := true;
    var prevNum := 0;
    for i := 0 to |lines|
      invariant isOrdered && prevNum == i
      invariant forall j :: 0 <= j < i ==> LineNumber(lines[j]) == Some(j + 1)
    {
      var num := LineNumber(lines[i]);
      if num.None? || prevNum + 1 != num.value {
        assert !Numbered(lines);
        isOrdered := false;
        break;
      }
      assert LineNumber(lines[i]) == Some(i + 1);
      prevNum := num.value;
    }
  }

  // ----- properties of the classification -----

  /** The first line of a block is where the block starts. */
  lemma FirstLine(block: string, c: char)
    requires Lines(block)[0] != "" && Lines(block)[0][0] == c
    ensures block != "" && block[0] == c
  {
    SplitFirstPrefix(block, "\n");
  }

  /** Each rule fixes the first character of the block. */
  lemma RuleFirstCharacter(block: string)
    ensures IsHeading(block) ==> block != "" && block[0] == '#'
    ensures IsCode(block) ==> block != "" && block[0] == '`'
    ensures AllQuoted(Lines(block)) ==> block != "" && block[0] == '>'
    ensures AllItems(Lines(block)) ==> block != "" && block[0] == '-'
    ensures Numbered(Lines(block)) ==> block != "" && IsDigit(block[0])
  {
    var first := Lines(block)[0];
    if IsCode(block) {
      assert block[..3] == "```";
    }
    if AllQuoted(Lines(block)) {
      assert first[..1] == ">";
      FirstLine(block, '>');
    }
    if AllItems(Lines(block)) {
      assert first[..2] == "- ";
      FirstLine(block, '-');
    }
    if Numbered(Lines(block)) {
      assert LineNumber(first) == Some(1);
      FirstLine(block, first[0]);
    }
  }

  /** The rules never overlap, so their order does not change the outcome: each block
      type is chosen exactly when its own rule holds. */
  lemma ClassifyIff(block: string)
    ensures Classify(block) == Heading <==> exists k :: 1 <= k <= 6 && PoundsAt(block, k)
    ensures Classify(block) == Code <==> IsCode(block)
    ensures Classify(block) == Quote <==> AllQuoted(Lines(block))
    ensures Classify(block) == UnorderedList <==> AllItems(Lines(block))
    ensures Classify(block) == OrderedList <==> Numbered(Lines(block))
    ensures Classify(block) == Paragraph <==>
              !IsHeading(block) && !IsCode(block) && !AllQuoted(Lines(block))
              && !AllItems(Lines(block)) && !Numbered(Lines(block))
  {
    HeadingIff(block);
    RuleFirstCharacter(block);
  }

  /** A block that starts with none of `#`, a backtick, `>`, `-` or a digit (or is empty)
      is a paragraph. */
  lemma PlainStartIsParagraph(block: string)
    requires block == "" || (block[0] !in "#`>-" && !IsDigit(block[0]))
    ensures Classify(block) == Paragraph
  {
    RuleFirstCharacter(block);
  }

  /** One to six pounds and a space make a heading, whatever follows; seven or more make
      a paragraph. */
  lemma HeadingLevels(n: nat, rest: string)
    ensures 1 <= n <= 6 ==> Classify(Repeat('#', n) + " " + rest) == Heading
    ensures 7 <= n ==> Classify(Repeat('#', n) + " " + rest) == Paragraph
  {
    var block := Repeat('#', n) + " " + rest;
    assert PoundsAt(block, n);
    PoundsMatchSpec(block);
    RuleFirstCharacter(block);
    if 7 <= n {
      assert block[0] == '#';
    }
  }

  /** A block between two fences is code, and so is a lone fence. */
  lemma CodeFences(body: string)
    ensures Classify("```" + body + "```") == Code
    ensures Classify("```") == Code
  {
    var block := "```" + body + "```";
    assert block[..3] == "```";
    assert block[|block| - 3..] == "```";
    assert LeadingPounds(block) == 0;
    assert LeadingPounds("```") == 0;
  }

  /** Lines joined by newlines are the lines of the block they make. */
  lemma LinesOfJoin(lines: seq<string>)
    requires lines != []
    requires forall i :: 0 <= i < |lines| ==> Avoids(lines[i], '\n')
    ensures Lines(Join(lines, "\n")) == lines
  {
    assert "\n" == ['\n'];
    SplitJoin(lines, '\n');
  }

  /** Items each written after `>` make a quote. */
  lemma QuoteBlock(items: seq<string>)
    requires items != []
    requires forall i :: 0 <= i < |items| ==> Avoids(items[i], '\n')
    ensures Classify(Join(seq(|items|, i requires 0 <= i < |items| => ">" + items[i]), "\n")) == Quote
  {
    var lines := seq(|items|, i requires 0 <= i < |items| => ">" + items[i]);
    forall i | 0 <= i < |lines|
      ensures Avoids(lines[i], '\n') && StartsWith(lines[i], ">")
    {
      AvoidsAppend(">", items[i], '\n');
      assert lines[i][..1] == ">";
    }
    LinesOfJoin(lines);
    ClassifyIff(Join(lines, "\n"));
  }

  /** Items each written after `- ` make an unordered list. */
  lemma UnorderedListBlock(items: seq<string>)
    requires items != []
    requires forall i :: 0 <= i < |items| ==> Avoids(items[i], '\n')
    ensures Classify(Join(seq(|items|, i requires 0 <= i < |items| => "- " + items[i]), "\n")) == UnorderedList
  {
    var lines := seq(|items|, i requires 0 <= i < |items| => "- " + items[i]);
    forall i | 0 <= i < |lines|
      ensures Avoids(lines[i], '\n') && StartsWith(lines[i], "- ")
    {
      AvoidsAppend("- ", items[i], '\n');
      assert lines[i][..2] == "- ";
    }
    LinesOfJoin(lines);
    ClassifyIff(Join(lines, "\n"));
  }

  /** `str(n)`: the decimal digits of `n`, without leading zeros. */
  function ShowNat(n: nat): (s: string)
    ensures s != [] && AllDigits(s)
  {
    if n < 10 then [('0' as int + n) as char]
    else ShowNat(n / 10) + [('0' as int + n % 10) as char]
  }

  /** Reading the digits of `n` gives `n` back. */
  lemma {:induction false} DecimalShowNat(n: nat)
    ensures DecimalValue(ShowNat(n)) == n
  {
    if n >= 10 {
      var s := ShowNat(n);
      assert s[..|s| - 1] == ShowNat(n / 10);
      DecimalShowNat(n / 10);
    }
  }

  /** Digits followed by a character that is not one are a digit run of their length. */
  lemma {:induction false} DigitRunOf(digits: string, rest: string)
    requires AllDigits(digits) && rest != [] && !IsDigit(rest[0])
    ensures DigitRun(digits + rest) == |digits|
    decreases |digits|
  {
    if digits != [] {
      assert (digits + rest)[1..] == digits[1..] + rest;
      DigitRunOf(digits[1..], rest);
    }
  }

  /** A line written as `<n>. <text>` reads as the number `n`. */
  lemma NumberedLineReads(n: nat, text: string)
    ensures LineNumber(ShowNat(n) + ". " + text) == Some(n)
  {
    var s := ShowNat(n);
    var line := s + ". " + text;
    assert line == s + (". " + text);
    DigitRunOf(s, ". " + text);
    assert line[|s|] == '.' && line[|s| + 1] == ' ';
    assert line[..|s|] == s;
    DecimalShowNat(n);
  }

  /** Items each written after their 1-based number, a dot and a space make an
      ordered list. */
  lemma OrderedListBlock(items: seq<string>)
    requires items != []
    requires forall i :: 0 <= i < |items| ==> Avoids(items[i], '\n')
    ensures Classify(Join(seq(|items|, i requires 0 <= i < |items| => ShowNat(i + 1) + ". " + items[i]), "\n"))
            == OrderedList
  {
    var lines := seq(|items|, i requires 0 <= i < |items| => ShowNat(i + 1) + ". " + items[i]);
    forall i | 0 <= i < |lines|
      ensures Avoids(lines[i], '\n') && LineNumber(lines[i]) == Some(i + 1)
    {
      var s := ShowNat(i + 1);
      assert Avoids(s, '\n') by {
        forall k | 0 <= k < |s|
          ensures s[k] != '\n'
        {
          assert IsDigit(s[k]);
        }
      }
      AvoidsAppend(s, ". ", '\n');
      AvoidsAppend(s + ". ", items[i], '\n');
      NumberedLineReads(i + 1, items[i]);
    }
    LinesOfJoin(lines);
    ClassifyIff(Join(lines, "\n"));
  }

  /** The `.` of the pattern is not escaped: any character but a newline may follow the
      digits, so `1) x` reads as 1. */
  lemma AnyCharAfterNumber(d: char, c: char, text: string)
    requires IsDigit(d) && !IsDigit(c) && c != '\n'
    ensures LineNumber([d, c, ' '] + text) == Some(DigitValue(d))
  {
    var line := [d, c, ' '] + text;
    assert DigitRun(line) == 1 by {
      assert line[1..] == [c, ' '] + text;
    }
    assert Fits(line, 1);
    assert NumberGroup(line) == Some(1);
    assert line[..1] == [d];
    assert [d][..0] == [];
    assert DecimalValue([d]) == DigitValue(d);
  }

  /** `\d+` gives back a digit so that the `.` can match it: `12 apples` reads as 1,
      and as a block of its own it is an ordered list. */
  lemma DigitGivenBack(b: char, text: string)
    requires IsDigit(b) && (text == [] || text[0] != ' ')
    ensures LineNumber(['1', b, ' '] + text) == Some(1)
    ensures Avoids(text, '\n') ==> Classify(['1', b, ' '] + text) == OrderedList
  {
    var line := ['1', b, ' '] + text;
    assert DigitRun(line) == 2 by {
      assert line[1..] == [b, ' '] + text;
      assert line[1..][1..] == [' '] + text;
      assert DigitRun([' '] + text) == 0;
      assert DigitRun([b, ' '] + text) == 1;
    }
    assert !Fits(line, 2);
    assert Fits(line, 1);
    assert line[..1] == ['1'];
    assert ['1'][..0] == [];
    if Avoids(text, '\n') {
      assert Avoids(line, '\n') by {
        forall i | 0 <= i < |line|
          ensures line[i] != '\n'
        {
          if i >= 3 {
            assert line[i] == text[i - 3];
          }
        }
      }
      SplitPlain(line, "\n");
      ClassifyIff(line);
    }
  }
}
