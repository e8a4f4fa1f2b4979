/**
  * The text `ingest_file` hands to the memory for each chunk
  * (autogpt/commands/file_operations.py:136-143):
  * `"Filename: <f>\nContent part#<i>/<n>: <chunk>"` with `i` counted from 1.
  */
module Ingest {
  import opened Chunker

  /** The decimal digit for `d`. */
  function Digit(d: nat): (c: char)
    requires d < 10
    ensures '0' <= c <= '9' && (c as int) - ('0' as int) == d
  {
    ('0' as int + d) as char
  }

  predicate IsDigits(s: string)
  {
    forall i :: 0 <= i < |s| ==> '0' <= s[i] <= '9'
  }

  /** `str(n)` for a natural number: its decimal digits, most significant first. */
  function Decimal(n: nat): (s: string)
    ensures |s| > 0 && IsDigits(s)
    ensures |s| > 1 ==> s[0] != '0'
    decreases n
  {
    if n < 10 then [Digit(n)] else Decimal(n / 10) + [Digit(n % 10)]
  }

  /** The number a string of decimal digits denotes. */
  function DecimalValue(s: string): nat
    requires IsDigits(s)
    decreases |s|
  {
    if s == [] then 0
    else DecimalValue(s[..|s| - 1]) * 10 + ((s[|s| - 1] as int) - ('0' as int))
  }

  /** The digits `Decimal` writes denote the number again. */
  lemma {:induction false} DecimalRoundTrip(n: nat)
    ensures DecimalValue(Decimal(n)) == n
    decreases n
  {
    if n < 10 {
      assert [Digit(n)][..0] == [];
    } else {
      var s := Decimal(n);
      DecimalRoundTrip(n / 10);
      assert s[..|s| - 1] == Decimal(n / 10);
    }
  }

  /** Different numbers are written differently. */
  lemma DecimalInjective(m: nat, n: nat)
    requires Decimal(m) == Decimal(n)
    ensures m == n
  {
    DecimalRoundTrip(m);
    DecimalRoundTrip(n);
  }

  /** Everything of a label before the chunk. */
  function LabelHeader(filename: string, part: nat, total: nat): string
  {
    "Filename: " + filename + "\n" + "Content part#" + Decimal(part) + "/" + Decimal(total) + ": "
  }

  /** The memory entry for chunk number `part` of `total`. */
  function Label(filename: string, part: nat, total: nat, chunk: string): string
  {
    LabelHeader(filename, part, total) + chunk
  }

  /** The entries for a whole list of chunks, numbered from 1. */
  function Labels(filename: string, chunks: seq<string>): seq<string>
  {
    seq(|chunks|, i requires 0 <= i < |chunks| => Label(filename, i + 1, |chunks|, chunks[i]))
  }

  /**
    * A label gives back what went into it: it starts with the file name
    * line, and past the header it is exactly the chunk.
    */
  lemma LabelParts(filename: string, part: nat, total: nat, chunk: string)
    ensures var s := Label(filename, part, total, chunk);
      var h := LabelHeader(filename, part, total);
      && s[..10 + |filename| + 1] == "Filename: " + filename + "\n"
      && s[|h|..] == chunk
  {
    var s := Label(filename, part, total, chunk);
    var h := LabelHeader(filename, part, total);
    assert h[..10 + |filename| + 1] == "Filename: " + filename + "\n";
    assert s[..|h|] == h;
  }

  /** The chunk each label carries, cut back out of it. */
  function Carried(filename: string, labels: seq<string>): (cs: seq<string>)
    requires forall i :: 0 <= i < |labels| ==> |LabelHeader(filename, i + 1, |labels|)| <= |labels[i]|
  {
    seq(|labels|, i requires 0 <= i < |labels| => labels[i][|LabelHeader(filename, i + 1, |labels|)|..])
  }

  /**
    * The labels of a text split without overlap carry the whole text: the
    * chunks cut back out of them concatenate to the content.
    */
  lemma LabelsCarryContent(filename: string, content: string, maxLength: int)
    requires Splittable(|content|, maxLength, 0)
    ensures var ls := Labels(filename, Chunks(content, maxLength, 0));
      && (forall i :: 0 <= i < |ls| ==> |LabelHeader(filename, i + 1, |ls|)| <= |ls[i]|)
      && Concat(Carried(filename, ls)) == content
  {
    var cs := Chunks(content, maxLength, 0);
    var ls := Labels(filename, cs);
    forall i | 0 <= i < |ls|
      ensures |LabelHeader(filename, i + 1, |ls|)| <= |ls[i]|
      ensures ls[i][|LabelHeader(filename, i + 1, |ls|)|..] == cs[i]
    {
      LabelParts(filename, i + 1, |ls|, cs[i]);
    }
    assert Carried(filename, ls) == cs;
    ConcatRoundTrip(content, maxLength);
  }
}
