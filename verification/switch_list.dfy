/**
  The `switches` request parameter: "all", or a comma-separated list of
  integers, each read as Python's `int` reads a decimal text.
 */
module SwitchList {
  import opened Wrappers
  import opened Digits

  // ---------------------------------------------------------------------------
  // Splitting on commas

  /** Python's `text.split(",")`: always at least one part, empty parts kept. */
  function Split(s: string): (parts: seq<string>)
    ensures |parts| >= 1
    ensures forall i :: 0 <= i < |parts| ==> ',' !in parts[i]
  {
    if s == [] then [""]
    else
      var rest := Split(s[1..]);
      if s[0] == ',' then [""] + rest
      else [[s[0]] + rest[0]] + rest[1..]
  }

  /** `",".join(parts)`. */
  function Join(parts: seq<string>): string
    requires |parts| >= 1
  {
    if |parts| == 1 then parts[0] else parts[0] + "," + Join(parts[1..])
  }

  lemma JoinCons(p: string, parts: seq<string>)
    requires |parts| >= 1
    ensures Join([p] + parts) == p + "," + Join(parts)
  {
    assert ([p] + parts)[1..] == parts;
  }

  /** Joining the parts of a split gives the text back. */
  lemma {:induction false} JoinSplit(s: string)
    ensures Join(Split(s)) == s
  {
    if s != [] {
      var rest := Split(s[1..]);
      JoinSplit(s[1..]);
      if s[0] == ',' {
        JoinCons("", rest);
        assert s == [s[0]] + s[1..];
      } else {
        var parts := [[s[0]] + rest[0]] + rest[1..];
        if |rest| == 1 {
          assert parts == [[s[0]] + rest[0]];
        } else {
          JoinCons([s[0]] + rest[0], rest[1..]);
          JoinCons(rest[0], rest[1..]);
          assert rest == [rest[0]] + rest[1..];
        }
        assert s == [s[0]] + s[1..];
      }
    }
  }

  /** Splitting a comma-free text gives it back as the only part. */
  lemma {:induction false} SplitPlain(s: string)
    requires ',' !in s
    ensures Split(s) == [s]
  {
    if s != [] {
      SplitPlain(s[1..]);
      assert [s[0]] + s[1..] == s;
    }
  }

  /** Splitting `p + "," + t` for a comma-free `p` gives `p` then the parts of `t`. */
  lemma {:induction false} SplitCons(p: string, t: string)
    requires ',' !in p
    ensures Split(p + "," + t) == [p] + Split(t)
  {
    if p == [] {
      assert p + "," + t == [','] + t;
      assert ([','] + t)[1..] == t;
    } else {
      var s := p + "," + t;
      assert s[0] == p[0] && s[1..] == p[1..] + "," + t;
      SplitCons(p[1..], t);
      assert [p[0]] + p[1..] == p;
    }
  }

  /** Splitting a join of comma-free parts gives the parts back. */
  lemma {:induction false} SplitJoin(parts: seq<string>)
    requires |parts| >= 1
    requires forall i :: 0 <= i < |parts| ==> ',' !in parts[i]
    ensures Split(Join(parts)) == parts
  {
    if |parts| == 1 {
      SplitPlain(parts[0]);
    } else {
      SplitJoin(parts[1..]);
      SplitCons(parts[0], Join(parts[1..]));
      assert parts == [parts[0]] + parts[1..];
    }
  }

  // ---------------------------------------------------------------------------
  // Reading integers

  /** `int(text)` on an optional sign followed by decimal digits; `None`
      where Python raises `ValueError`. */
  function ParseInt(t: string): (r: Option<int>)
    ensures r.Some? ==> |t| >= 1 && ',' !in t
  {
    if |t| >= 1 && (t[0] == '+' || t[0] == '-') then
      var digits := t[1..];
      if |digits| >= 1 && AllDigits(digits) then
        var v: int := DigitsValue(digits);
        Some(if t[0] == '-' then -v else v)
      else None
    else if |t| >= 1 && AllDigits(t) then Some(DigitsValue(t))
    else None
  }

  /** `int` reads back any zero-padded decimal text, with or without a sign. */
  lemma ParseIntOfPad(n: nat, w: nat)
    requires 1 <= w && n < Pow10(w)
    ensures ParseInt(Pad(n, w)) == Some(n)
    ensures ParseInt("+" + Pad(n, w)) == Some(n)
    ensures ParseInt("-" + Pad(n, w)) == Some(-(n as int))
  {
    var p := Pad(n, w);
    assert !IsDigit('+') && !IsDigit('-');
    assert p[0] != '+' && p[0] != '-' by {
      assert IsDigit(p[0]);
    }
    assert ("+" + p)[1..] == p;
    assert ("-" + p)[1..] == p;
  }

  /** Why the switches text cannot be read. */
  datatype SwitchError = NotAnInteger(part: string)

  function ParseParts(parts: seq<string>): (r: Result<seq<int>, SwitchError>)
    ensures r.Success? ==> |r.value| == |parts|
    ensures r.Success? ==> forall i :: 0 <= i < |parts| ==> ParseInt(parts[i]) == Some(r.value[i])
    ensures r.Failure? ==> exists i :: 0 <= i < |parts| && ParseInt(parts[i]).None? && r.error == NotAnInteger(parts[i])
    ensures r.Failure? <==> exists i :: 0 <= i < |parts| && ParseInt(parts[i]).None?
  {
    if parts == [] then Success([])
    else
      match ParseInt(parts[0])
      case None => Failure(NotAnInteger(parts[0]))
      case Some(n) =>
        match ParseParts(parts[1..])
        case Failure(e) => Failure(e)
        case Success(ns) => Success([n] + ns)
  }

  /** The switch counts requested: 0, 1 and 2 for "all", otherwise each
      comma-separated part read as an integer. */
  function ParseSwitches(text: string): (r: Result<seq<int>, SwitchError>)
    ensures text == "all" ==> r == Success([0, 1, 2])
    ensures text != "all" && r.Success? ==>
              var parts := Split(text);
              |r.value| == |parts| && forall i :: 0 <= i < |parts| ==> ParseInt(parts[i]) == Some(r.value[i])
    ensures text != "all" ==>
              (r.Success? <==> forall p :: p in Split(text) ==> ParseInt(p).Some?)
    ensures r.Failure? ==> r.error.part in Split(text) && ParseInt(r.error.part).None?
  {
    if text == "all" then Success([0, 1, 2])
    else
      var parts := Split(text);
      ParseParts(parts)
  }

  /** The text of a list of one-digit counts, as a client writes it. */
  function ShowCounts(xs: seq<nat>): string
    requires |xs| >= 1 && forall i :: 0 <= i < |xs| ==> xs[i] < 10
  {
    Join(CountTexts(xs))
  }

  function CountTexts(xs: seq<nat>): (r: seq<string>)
    requires forall i :: 0 <= i < |xs| ==> xs[i] < 10
    ensures |r| == |xs|
    ensures forall i :: 0 <= i < |r| ==> r[i] == Pad(xs[i], 1)
  {
    if xs == [] then [] else [Pad(xs[0], 1)] + CountTexts(xs[1..])
  }

  /** A list of one-digit counts written as the client writes it reads back unchanged. */
  lemma ParseShowCounts(xs: seq<nat>)
    requires |xs| >= 1 && forall i :: 0 <= i < |xs| ==> xs[i] < 10
    ensures ParseSwitches(ShowCounts(xs)) == Success(xs)
  {
    var texts := CountTexts(xs);
    forall i | 0 <= i < |texts| ensures ',' !in texts[i] && ParseInt(texts[i]) == Some(xs[i] as int) {
      ParseIntOfPad(xs[i], 1);
      assert IsDigit(texts[i][0]);
    }
    SplitJoin(texts);
    assert ShowCounts(xs) != "all" by {
      assert |texts[0]| == 1 && IsDigit(texts[0][0]);
      assert ShowCounts(xs)[0] == texts[0][0];
      assert !IsDigit('a');
    }
    var r := ParseParts(texts);
    assert r.Success? && r.value == xs;
  }
}
