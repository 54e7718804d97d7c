/** The stored form of a blame map: `actor,session,len` per run, runs joined by `;`. */
module BlameCodec {
  import opened Tilings
  import opened Authorship
  import opened Bytes
  import opened BlameMaps

  const I64: int := 0x8000_0000_0000_0000

  // ----- splitting and joining

  function Split(s: string, sep: char): (parts: seq<string>)
    ensures |parts| > 0
  {
    if s == "" then [""]
    else
      var rest := Split(s[1..], sep);
      if s[0] == sep then [""] + rest else [[s[0]] + rest[0]] + rest[1..]
  }

  function Join(parts: seq<string>, sep: char): string {
    if parts == [] then ""
    else if |parts| == 1 then parts[0]
    else parts[0] + [sep] + Join(parts[1..], sep)
  }

  lemma {:induction false} SplitHead(a: string, rest: string, sep: char)
    requires sep !in a
    ensures Split(a + [sep] + rest, sep) == [a] + Split(rest, sep)
    ensures Split(a, sep) == [a]
    decreases |a|
  {
    var s := a + [sep] + rest;
    if a == "" {
      assert s == [sep] + rest && s[1..] == rest;
    } else {
      SplitHead(a[1..], rest, sep);
      assert s[1..] == a[1..] + [sep] + rest && s[0] == a[0];
      assert [a[0]] + a[1..] == a;
    }
  }

  lemma {:induction false} SplitJoin(parts: seq<string>, sep: char)
    requires parts != [] && forall i | 0 <= i < |parts| :: sep !in parts[i]
    ensures Split(Join(parts, sep), sep) == parts
    decreases |parts|
  {
    if |parts| == 1 {
      SplitHead(parts[0], "", sep);
    } else {
      SplitHead(parts[0], Join(parts[1..], sep), sep);
      SplitJoin(parts[1..], sep);
      assert parts == [parts[0]] + parts[1..];
    }
  }

  // ----- decimal numbers

  predicate IsDigit(c: char) { '0' <= c <= '9' }

  function Digit(d: nat): (c: char)
    requires d < 10
    ensures IsDigit(c) && c as int - '0' as int == d
  {
    "0123456789"[d]
  }

  function Digits(n: nat): string {
    if n < 10 then [Digit(n)] else Digits(n / 10) + [Digit(n % 10)]
  }

  /** `None` unless it is one digit or more. */
  function Number(s: string): Option<nat> {
    if s == "" || !IsDigit(s[|s|-1]) then None
    else
      var last := s[|s|-1] as int - '0' as int;
      if |s| == 1 then Some(last)
      else
        var front := Number(s[..|s|-1]);
        if front.Some? then Some(10 * front.value + last) else None
  }

  lemma {:induction false} DigitsRead(n: nat)
    ensures Number(Digits(n)) == Some(n) && Digits(n) != ""
    ensures forall i | 0 <= i < |Digits(n)| :: IsDigit(Digits(n)[i])
    decreases n
  {
    if n >= 10 {
      DigitsRead(n / 10);
      assert Digits(n)[..|Digits(n)|-1] == Digits(n / 10);
    }
  }

  function Signed(n: int): string {
    if n < 0 then "-" + Digits(-n) else Digits(n)
  }

  function ReadUnsigned(s: string): Option<nat> {
    var n := Number(if s != "" && s[0] == '+' then s[1..] else s);
    if n.Some? && n.value < U64 then n else None
  }

  function ReadSigned(s: string): Option<int> {
    if s != "" && s[0] == '-' then
      var n := Number(s[1..]);
      if n.Some? && n.value <= I64 then Some(0 - n.value) else None
    else
      var n := Number(if s != "" && s[0] == '+' then s[1..] else s);
      if n.Some? && n.value < I64 then Some(n.value) else None
  }

  lemma UnsignedReads(n: nat)
    requires n < U64
    ensures ReadUnsigned(Digits(n)) == Some(n)
    ensures ',' !in Digits(n) && ';' !in Digits(n)
  {
    hide Number, Digits;
    DigitsRead(n);
  }

  lemma SignedReads(n: int)
    requires -I64 <= n < I64
    ensures ReadSigned(Signed(n)) == Some(n)
    ensures ',' !in Signed(n) && ';' !in Signed(n) && Signed(n) != ""
  {
    hide Number, Digits;
    if n < 0 {
      DigitsRead(-n);
      assert Signed(n)[1..] == Digits(-n);
    } else {
      DigitsRead(n);
    }
  }

  // ----- runs and maps

  function EncodeRun(run: Run<Author>): string {
    Join([Signed(run.stamp.actor), Signed(run.stamp.session), Digits(run.len)], ',')
  }

  /** A piece with too few fields, or one that is no number, is none; further fields are
      ignored. */
  function DecodeRun(piece: string): Option<Run<Author>> {
    var fields := Split(piece, ',');
    if |fields| < 3 then None
    else
      var actor, session, len := ReadSigned(fields[0]), ReadSigned(fields[1]), ReadUnsigned(fields[2]);
      if actor.Some? && session.Some? && len.Some?
      then Some(Run(Author(actor.value, session.value), len.value)) else None
  }

  function EncodeRuns(map_: BlameMap): (pieces: seq<string>)
    ensures |pieces| == |map_|
  {
    if map_ == [] then [] else [EncodeRun(map_[0])] + EncodeRuns(map_[1..])
  }

  function Encode(map_: BlameMap): string {
    Join(EncodeRuns(map_), ';')
  }

  function DecodeRuns(pieces: seq<string>): BlameMap {
    if pieces == [] then []
    else
      var rest := DecodeRuns(pieces[1..]);
      if pieces[0] == "" then rest
      else
        var run := DecodeRun(pieces[0]);
        if run.Some? then [run.value] + rest else rest
  }

  function Decode(s: string): BlameMap {
    DecodeRuns(Split(s, ';'))
  }

  /** The widths its fields are stored in. */
  predicate Fits(run: Run<Author>) {
    -I64 <= run.stamp.actor < I64 && -I64 <= run.stamp.session < I64 && run.len < U64
  }

  lemma Join3(a: string, b: string, c: string, sep: char)
    ensures Join([a, b, c], sep) == a + [sep] + (b + [sep] + c)
  {
    assert [a, b, c][1..] == [b, c] && [b, c][1..] == [c];
    assert Join([c], sep) == c;
    assert Join([b, c], sep) == b + [sep] + c;
  }

  lemma RunReads(run: Run<Author>)
    requires Fits(run)
    ensures DecodeRun(EncodeRun(run)) == Some(run) && ';' !in EncodeRun(run) && EncodeRun(run) != ""
  {
    hide Digits, Signed, ReadSigned, ReadUnsigned, Split;
    SignedReads(run.stamp.actor);
    SignedReads(run.stamp.session);
    UnsignedReads(run.len);
    var a, b, c := Signed(run.stamp.actor), Signed(run.stamp.session), Digits(run.len);
    SplitJoin([a, b, c], ',');
    Join3(a, b, c, ',');
  }

  lemma {:induction false} RunsRead(map_: BlameMap)
    requires forall i | 0 <= i < |map_| :: Fits(map_[i])
    ensures DecodeRuns(EncodeRuns(map_)) == map_
    ensures forall i | 0 <= i < |map_| :: ';' !in EncodeRuns(map_)[i]
    decreases |map_|
  {
    hide EncodeRun, DecodeRun, Fits;
    if map_ == [] {
    } else {
      RunReads(map_[0]);
      RunsRead(map_[1..]);
      assert map_ == [map_[0]] + map_[1..];
    }
  }

  /** A map reads back as it was stored, run by run. */
  lemma RoundTrip(map_: BlameMap)
    requires forall i | 0 <= i < |map_| :: Fits(map_[i])
    ensures Decode(Encode(map_)) == map_
  {
    hide EncodeRun, DecodeRun, Fits, Split;
    RunsRead(map_);
    if map_ == [] {
      NothingSplits();
    } else {
      SplitJoin(EncodeRuns(map_), ';');
    }
  }

  /** Each piece is read on its own: one that is no run costs itself only. */
  lemma {:induction false} PiecesReadAlone(a: seq<string>, b: seq<string>)
    ensures DecodeRuns(a + b) == DecodeRuns(a) + DecodeRuns(b)
    decreases |a|
  {
    hide DecodeRun;
    if a == [] {
      assert a + b == b;
    } else {
      assert (a + b)[0] == a[0] && (a + b)[1..] == a[1..] + b;
      PiecesReadAlone(a[1..], b);
    }
  }

  /** The form on record: three numbers a run with commas between, semicolons between runs. */
  lemma StoredForm()
    ensures Encode([Run(Author(12, -3), 45), Run(Author(1, 0), 6)]) == "12,-3,45;1,0,6"
  {
    hide EncodeRun, Digits, Signed;
    var a, b := Run(Author(12, -3), 45), Run(Author(1, 0), 6);
    RunForms();
    assert [a, b][1..] == [b] && [b][1..] == [];
    var first, second := EncodeRun(a), EncodeRun(b);
    assert EncodeRuns([a, b]) == [first, second];
    assert [first, second][1..] == [second] && Join([second], ';') == second;
    assert Join([first, second], ';') == first + ";" + second;
  }

  lemma RunForms()
    ensures EncodeRun(Run(Author(12, -3), 45)) == "12,-3,45" && EncodeRun(Run(Author(1, 0), 6)) == "1,0,6"
  {
    TwoDigits();
    hide Digits;
    Join3("12", "-3", "45", ',');
    Join3("1", "0", "6", ',');
  }

  lemma TwoDigits()
    ensures Digits(12) == "12" && Digits(45) == "45"
    ensures Digits(0) == "0" && Digits(1) == "1" && Digits(3) == "3" && Digits(6) == "6"
  {
    assert Digits(1) == "1" && Digits(4) == "4";
  }

  lemma NothingSplits()
    ensures Split("", ';') == [""] && DecodeRuns([""]) == []
  {
    assert [""][1..] == [];
  }
}
