/** `parse_fasta`: FASTA text, as a sequence of lines, to a map from record
    key to sequence. The method follows the source loop (a current key and
    a list of pending sequence lines); `FastaMap` states the result record
    by record: each header line starts a record whose body is the stripped,
    non-blank lines up to the next header, and the records are stored in
    order, a later record overwriting an earlier one with the same key. */
module Fasta {
  import opened Strings
  import opened Identifiers

  /** What one line of a FASTA file is, once stripped: a header (with the
      key its record is stored under, `""` meaning "no key"), a line of
      sequence, or a blank line. */
  datatype Line = Header(key: string) | Residues(text: string) | Blank

  /** Classifies one raw line the way the loop body does. */
  function Classify(raw: string): (r: Line)
    ensures r == Blank <==> Strip(raw) == ""
    ensures r.Header? <==> StartsWith(Strip(raw), ">")
    ensures r.Header? ==> r.key == StorageKey(CleanFastaHeader(Strip(raw)).0, CleanFastaHeader(Strip(raw)).1)
    ensures r.Residues? ==> r.text == Strip(raw) && r.text != ""
  {
    var line := Strip(raw);
    if line == "" then Blank
    else if StartsWith(line, ">") then
      var (base, arm) := CleanFastaHeader(line);
      Header(StorageKey(base, arm))
    else Residues(line)
  }

  /** Every line classified, in order. */
  function ClassifyAll(lines: seq<string>): (r: seq<Line>)
    ensures |r| == |lines|
    ensures forall k :: 0 <= k < |lines| ==> r[k] == Classify(lines[k])
  {
    seq(|lines|, k requires 0 <= k < |lines| => Classify(lines[k]))
  }

  /** The number of lines before the next header (or the end). */
  function BodyLength(ls: seq<Line>): (n: nat)
    ensures n <= |ls|
  {
    if ls == [] || ls[0].Header? then 0 else 1 + BodyLength(ls[1..])
  }

  /** The lines `BodyLength` counts are not headers, and the one after them
      (if any) is. */
  lemma {:induction false} BodyLengthStopsAtHeader(ls: seq<Line>)
    ensures forall t :: 0 <= t < BodyLength(ls) ==> !ls[t].Header?
    ensures BodyLength(ls) < |ls| ==> ls[BodyLength(ls)].Header?
  {
    if ls != [] && !ls[0].Header? {
      BodyLengthStopsAtHeader(ls[1..]);
      assert forall t :: 1 <= t < |ls| ==> ls[t] == ls[1..][t - 1];
    }
  }

  /** A run of non-header lines ending at a header (or the end) is counted
      exactly. */
  lemma {:induction false} BodyLengthOf(body: seq<Line>, rest: seq<Line>)
    requires forall t :: 0 <= t < |body| ==> !body[t].Header?
    requires rest == [] || rest[0].Header?
    ensures BodyLength(body + rest) == |body|
  {
    if body != [] {
      assert (body + rest)[0] == body[0];
      assert (body + rest)[1..] == body[1..] + rest;
      BodyLengthOf(body[1..], rest);
    } else {
      assert body + rest == rest;
    }
  }

  /** The sequence lines of a record body, in order; blank lines give
      nothing. */
  function SequenceLines(ls: seq<Line>): (r: seq<string>)
  {
    if ls == [] then []
    else if ls[0].Residues? then [ls[0].text] + SequenceLines(ls[1..])
    else SequenceLines(ls[1..])
  }

  /** One FASTA record: the key of its header and its joined sequence. */
  datatype Record = Record(key: string, body: string)

  /** The records of a FASTA text in order. Lines before the first header
      belong to no record; a record's body runs to the next header. */
  function Records(ls: seq<Line>): seq<Record>
    decreases |ls|
  {
    if ls == [] then []
    else if !ls[0].Header? then Records(ls[1..])
    else
      var n := BodyLength(ls[1..]);
      [Record(ls[0].key, Concat(SequenceLines(ls[1..1 + n])))] + Records(ls[1 + n..])
  }

  /** `if key: seqs[key] = value` — an empty key is never stored. */
  function Store(m: map<string, string>, key: string, value: string): map<string, string>
  {
    if key != "" then m[key := value] else m
  }

  /** Stores the records one after the other. */
  function StoreAll(m: map<string, string>, rs: seq<Record>): map<string, string>
    decreases |rs|
  {
    if rs == [] then m else StoreAll(Store(m, rs[0].key, rs[0].body), rs[1..])
  }

  /** The map a FASTA text, classified line by line, describes. */
  function FastaMap(ls: seq<Line>): map<string, string>
  {
    StoreAll(map[], Records(ls))
  }

  /** Lines before the first header contribute nothing. */
  lemma {:induction false} RecordsSkipPreamble(pre: seq<Line>, rest: seq<Line>)
    requires forall t :: 0 <= t < |pre| ==> !pre[t].Header?
    ensures Records(pre + rest) == Records(rest)
  {
    if pre != [] {
      assert (pre + rest)[0] == pre[0];
      assert (pre + rest)[1..] == pre[1..] + rest;
      RecordsSkipPreamble(pre[1..], rest);
    } else {
      assert pre + rest == rest;
    }
  }

  /** A header, the lines up to the next header and what follows make one
      record followed by the records of what follows. */
  lemma RecordsOfBlock(key: string, body: seq<Line>, rest: seq<Line>)
    requires forall t :: 0 <= t < |body| ==> !body[t].Header?
    requires rest == [] || rest[0].Header?
    ensures Records([Header(key)] + body + rest)
         == [Record(key, Concat(SequenceLines(body)))] + Records(rest)
  {
    var ls := [Header(key)] + body + rest;
    assert ls[0] == Header(key);
    assert ls[1..] == body + rest;
    BodyLengthOf(body, rest);
    assert ls[1..1 + |body|] == body;
    assert ls[1 + |body|..] == rest;
  }

  /** A key is in the stored map exactly when it was already there or some
      record has it and it is not empty. */
  lemma {:induction false} StoreAllKeys(m: map<string, string>, rs: seq<Record>, k: string)
    ensures k in StoreAll(m, rs)
        <==> k in m || (k != "" && exists j :: 0 <= j < |rs| && rs[j].key == k)
    decreases |rs|
  {
    if rs != [] {
      StoreAllKeys(Store(m, rs[0].key, rs[0].body), rs[1..], k);
      if exists j :: 0 <= j < |rs[1..]| && rs[1..][j].key == k {
        var j :| 0 <= j < |rs[1..]| && rs[1..][j].key == k;
        assert rs[j + 1].key == k;
      }
      if exists j :: 0 <= j < |rs| && rs[j].key == k {
        var j :| 0 <= j < |rs| && rs[j].key == k;
        if j > 0 { assert rs[1..][j - 1].key == k; }
      }
    }
  }

  /** A key no record has keeps its value. */
  lemma {:induction false} StoreAllUntouched(m: map<string, string>, rs: seq<Record>, k: string)
    requires k in m
    requires forall t :: 0 <= t < |rs| ==> rs[t].key != k
    ensures k in StoreAll(m, rs) && StoreAll(m, rs)[k] == m[k]
    decreases |rs|
  {
    if rs != [] {
      assert rs[0].key != k;
      StoreAllUntouched(Store(m, rs[0].key, rs[0].body), rs[1..], k);
    }
  }

  /** The last record with a (non-empty) key decides that key's value. */
  lemma {:induction false} StoreAllLastWins(m: map<string, string>, rs: seq<Record>, j: nat)
    requires j < |rs| && rs[j].key != ""
    requires forall t :: j < t < |rs| ==> rs[t].key != rs[j].key
    ensures rs[j].key in StoreAll(m, rs) && StoreAll(m, rs)[rs[j].key] == rs[j].body
    decreases |rs|
  {
    var m' := Store(m, rs[0].key, rs[0].body);
    if j == 0 {
      StoreAllUntouched(m', rs[1..], rs[0].key);
    } else {
      StoreAllLastWins(m', rs[1..], j - 1);
    }
  }

  /** The keys of a FASTA map are the non-empty keys of its records; a
      header whose key is empty is never stored. */
  lemma FastaMapKeys(ls: seq<Line>, k: string)
    ensures k in FastaMap(ls)
        <==> k != "" && exists j :: 0 <= j < |Records(ls)| && Records(ls)[j].key == k
  {
    var empty: map<string, string> := map[];
    var rs := Records(ls);
    StoreAllKeys(empty, rs, k);
    assert k !in empty;
    if k in FastaMap(ls) {
      var j :| 0 <= j < |rs| && rs[j].key == k;
      assert Records(ls)[j].key == k;
    }
  }

  /** A repeated key keeps the sequence of its last record. */
  lemma FastaMapLastWins(ls: seq<Line>, j: nat)
    requires var rs := Records(ls);
             j < |rs| && rs[j].key != "" && forall t :: j < t < |rs| ==> rs[t].key != rs[j].key
    ensures var rs := Records(ls);
            rs[j].key in FastaMap(ls) && FastaMap(ls)[rs[j].key] == rs[j].body
  {
    StoreAllLastWins(map[], Records(ls), j);
  }

  /** Example: the header `a_3p` followed by the single sequence line `UU`
      gives one record. */
  lemma ExampleLastRecord()
    ensures Records([Header("a_3p"), Residues("UU")]) == [Record("a_3p", "UU")]
  {
    RecordsOfBlock("a_3p", [Residues("UU")], []);
    assert [Header("a_3p")] + [Residues("UU")] + [] == [Header("a_3p"), Residues("UU")];
    assert SequenceLines([Residues("UU")]) == ["UU"] + SequenceLines([]);
    assert Concat(["UU"]) == "UU" + Concat([]);
    assert "UU" + [] == "UU";
  }

  /** Example: a file with the header `a_5p` over the lines `AC`, a blank
      line and `GU`, then the header `a_3p` over `UU`, gives two records in
      order; the blank line adds nothing and the body lines are joined. */
  lemma ExampleRecords()
    ensures Records([Header("a_5p"), Residues("AC"), Blank, Residues("GU"), Header("a_3p"), Residues("UU")])
         == [Record("a_5p", "ACGU"), Record("a_3p", "UU")]
  {
    var body := [Residues("AC"), Blank, Residues("GU")];
    var second := [Header("a_3p"), Residues("UU")];
    ExampleLastRecord();
    RecordsOfBlock("a_5p", body, second);
    assert [Header("a_5p")] + body + second
        == [Header("a_5p"), Residues("AC"), Blank, Residues("GU"), Header("a_3p"), Residues("UU")];
    assert body[1..][1..] == [Residues("GU")];
    assert SequenceLines([Residues("GU")]) == ["GU"] + SequenceLines([]);
    assert SequenceLines(body) == ["AC", "GU"];
    assert ["AC", "GU"][1..] == ["GU"];
    assert Concat(["GU"]) == "GU" + Concat([]);
    assert Concat(["AC", "GU"]) == "AC" + Concat(["GU"]);
    assert "AC" + ("GU" + []) == "ACGU";
  }

  /** Example: the same file with a stray line `NN` before the first
      header; the stray line is ignored, and each key maps to its record's
      joined body. */
  lemma FastaMapExample()
    ensures FastaMap([Residues("NN"), Header("a_5p"), Residues("AC"), Blank, Residues("GU"),
                      Header("a_3p"), Residues("UU")])
         == map["a_5p" := "ACGU", "a_3p" := "UU"]
  {
    var file := [Header("a_5p"), Residues("AC"), Blank, Residues("GU"), Header("a_3p"), Residues("UU")];
    ExampleRecords();
    RecordsSkipPreamble([Residues("NN")], file);
    assert [Residues("NN")] + file
        == [Residues("NN"), Header("a_5p"), Residues("AC"), Blank, Residues("GU"), Header("a_3p"), Residues("UU")];
    var empty: map<string, string> := map[];
    var rs := [Record("a_5p", "ACGU"), Record("a_3p", "UU")];
    StoreAllCons(empty, "a_5p", "ACGU", [Record("a_3p", "UU")]);
    assert rs == [Record("a_5p", "ACGU")] + [Record("a_3p", "UU")];
    assert [Record("a_3p", "UU")][1..] == [];
  }

  /** The map the text describes, given the state of the loop at line `i`:
      the pending record (current key and lines so far) is completed by the
      body lines before the next header, and then the remaining records are
      stored on top. */
  ghost function Outcome(ls: seq<Line>, i: nat, seqs: map<string, string>,
                         key: string, acc: seq<string>): map<string, string>
    requires i <= |ls|
  {
    var n := BodyLength(ls[i..]);
    StoreAll(Store(seqs, key, Concat(acc + SequenceLines(ls[i..i + n]))), Records(ls[i + n..]))
  }

  /** What one non-header line adds to the pending record. */
  function Piece(l: Line): seq<string>
  {
    if l.Residues? then [l.text] else []
  }

  /** A sequence line or a blank line extends the pending record (a blank
      line by nothing). */
  lemma OutcomeAfterBodyLine(ls: seq<Line>, i: nat, seqs: map<string, string>,
                             key: string, acc: seq<string>)
    requires i < |ls| && !ls[i].Header?
    ensures Outcome(ls, i, seqs, key, acc) == Outcome(ls, i + 1, seqs, key, acc + Piece(ls[i]))
  {
    var n := BodyLength(ls[i..]);
    assert ls[i..][0] == ls[i];
    assert ls[i..][1..] == ls[i + 1..];
    var n' := BodyLength(ls[i + 1..]);
    assert n == 1 + n';
    assert ls[i..i + n][0] == ls[i];
    assert ls[i..i + n][1..] == ls[i + 1..i + 1 + n'];
    assert acc + SequenceLines(ls[i..i + n]) == (acc + Piece(ls[i])) + SequenceLines(ls[i + 1..i + 1 + n']);
  }

  /** Storing a record and then the rest. */
  lemma StoreAllCons(m: map<string, string>, key: string, body: string, rs: seq<Record>)
    ensures StoreAll(m, [Record(key, body)] + rs) == StoreAll(Store(m, key, body), rs)
  {
    assert ([Record(key, body)] + rs)[1..] == rs;
  }

  /** The records of a text whose first line is a header, in terms of the
      lines after that header. */
  lemma RecordsAtHeader(ls: seq<Line>, i: nat)
    requires i < |ls| && ls[i].Header?
    ensures var m := BodyLength(ls[i + 1..]);
            Records(ls[i..])
            == [Record(ls[i].key, Concat(SequenceLines(ls[i + 1..i + 1 + m])))] + Records(ls[i + 1 + m..])
  {
    var t := ls[i..];
    var m := BodyLength(ls[i + 1..]);
    assert t[0] == ls[i];
    assert t[1..] == ls[i + 1..];
    assert t[1..1 + m] == ls[i + 1..i + 1 + m];
    assert t[1 + m..] == ls[i + 1 + m..];
  }

  /** At a header nothing more joins the pending record. */
  lemma OutcomeAtHeader(ls: seq<Line>, i: nat, seqs: map<string, string>, key: string, acc: seq<string>)
    requires i < |ls| && ls[i].Header?
    ensures Outcome(ls, i, seqs, key, acc) == StoreAll(Store(seqs, key, Concat(acc)), Records(ls[i..]))
  {
    assert ls[i..][0] == ls[i];
    assert BodyLength(ls[i..]) == 0;
    assert acc + SequenceLines(ls[i..i]) == acc;
  }

  /** A record just begun holds the body lines that follow. */
  lemma OutcomeFresh(ls: seq<Line>, i: nat, seqs: map<string, string>, key: string)
    requires i <= |ls|
    ensures var n := BodyLength(ls[i..]);
            Outcome(ls, i, seqs, key, [])
            == StoreAll(Store(seqs, key, Concat(SequenceLines(ls[i..i + n]))), Records(ls[i + n..]))
  {
    var n := BodyLength(ls[i..]);
    assert [] + SequenceLines(ls[i..i + n]) == SequenceLines(ls[i..i + n]);
  }

  /** The records from a header on, stored on top of any map, are the
      record that header begins stored first and then the rest. */
  lemma StoreFromHeader(ls: seq<Line>, i: nat, stored: map<string, string>)
    requires i < |ls| && ls[i].Header?
    ensures StoreAll(stored, Records(ls[i..])) == Outcome(ls, i + 1, stored, ls[i].key, [])
  {
    var m := BodyLength(ls[i + 1..]);
    var k, body := ls[i].key, Concat(SequenceLines(ls[i + 1..i + 1 + m]));
    var rest := Records(ls[i + 1 + m..]);
    OutcomeFresh(ls, i + 1, stored, k);
    StoreAllCons(stored, k, body, rest);
    RecordsAtHeader(ls, i);
  }

  /** A header line completes the pending record and starts a new one with
      no lines yet. */
  lemma OutcomeAfterHeader(ls: seq<Line>, i: nat, seqs: map<string, string>,
                           key: string, acc: seq<string>)
    requires i < |ls| && ls[i].Header?
    ensures Outcome(ls, i, seqs, key, acc)
         == Outcome(ls, i + 1, Store(seqs, key, Concat(acc)), ls[i].key, [])
  {
    OutcomeAtHeader(ls, i, seqs, key, acc);
    StoreFromHeader(ls, i, Store(seqs, key, Concat(acc)));
  }

  /** Before the first line, nothing is stored and nothing is pending. */
  lemma OutcomeAtStart(ls: seq<Line>)
    ensures FastaMap(ls) == Outcome(ls, 0, map[], "", [])
  {
    var n := BodyLength(ls);
    BodyLengthStopsAtHeader(ls);
    RecordsSkipPreamble(ls[..n], ls[n..]);
    assert ls[..n] + ls[n..] == ls;
    assert ls[0..] == ls && ls[0..0 + n] == ls[..n];
    assert [] + SequenceLines(ls[..n]) == SequenceLines(ls[..n]);
  }

  /** After the last line, only the pending record remains to be stored. */
  lemma OutcomeAtEnd(ls: seq<Line>, seqs: map<string, string>, key: string, acc: seq<string>)
    ensures Outcome(ls, |ls|, seqs, key, acc) == Store(seqs, key, Concat(acc))
  {
    assert ls[|ls|..] == [] && ls[|ls|..|ls|] == [];
    assert acc + [] == acc;
  }

  /** Python `parse_fasta` once the file is open: the map built line by line
      is the map the records describe. */
  method ParseFasta(lines: seq<string>) returns (seqs: map<string, string>)
    ensures seqs == FastaMap(ClassifyAll(lines))
  {
    ghost var ls := ClassifyAll(lines);
    seqs := map[];
    var currentKey := "";             // None and "" are both falsy
    var currentSeq: seq<string> := [];
    OutcomeAtStart(ls);
    for i := 0 to |lines|
      invariant FastaMap(ls) == Outcome(ls, i, seqs, currentKey, currentSeq)
    {
      var line := Strip(lines[i]);
      if line == "" {
        assert ls[i] == Blank;
        OutcomeAfterBodyLine(ls, i, seqs, currentKey, currentSeq);
        assert currentSeq + Piece(ls[i]) == currentSeq;
        continue;
      }
      if StartsWith(line, ">") {
        OutcomeAfterHeader(ls, i, seqs, currentKey, currentSeq);
        if currentKey != "" {
          seqs := seqs[currentKey := Concat(currentSeq)];
        }
        var (baseId, arm) := CleanFastaHeader(line);
        currentKey := StorageKey(baseId, arm);
        currentSeq := [];
      } else {
        assert ls[i] == Residues(line);
        OutcomeAfterBodyLine(ls, i, seqs, currentKey, currentSeq);
        currentSeq := currentSeq + [line];
      }
    }
    OutcomeAtEnd(ls, seqs, currentKey, currentSeq);
    if currentKey != "" {
      seqs := seqs[currentKey := Concat(currentSeq)];
    }
  }
}
