/** The access-rule engine: rules of the form "<pattern> <action>" loaded from
  * a line-oriented file, and a first-match substring scan over them. */
module HtaccessFunction {
  import opened Http
  import opened GoStrings

  /** A rule as loaded: the text before the first space and everything after it. */
  datatype Rule = Rule(pattern: string, action: string)

  datatype Decision = Allow | Deny | NoDecision

  /** What the scanner delivers: the file could not be opened, or these lines
    * were read, possibly followed by a read error (scanner.Err). */
  datatype RuleFile = Unopenable | Opened(lines: seq<string>, scanFailed: bool)

  datatype LoadError = OpenError | ScanError

  /** What one line contributes: skipped (blank or comment), rejected (no space), or a rule. */
  datatype LineOutcome = Skipped | Rejected | Accepted(rule: Rule)

  /** A rule that the loader can produce: the line was trimmed before it was split. */
  predicate WellFormed(r: Rule) {
    && r.pattern != [] && ' ' !in r.pattern && !IsSpace(r.pattern[0]) && r.pattern[0] != '#'
    && r.action != [] && !IsSpace(r.action[|r.action| - 1])
  }

  /** One iteration of the scanner loop in LoadHtaccess. An accepted line is
    * exactly pattern + " " + action with no space in the pattern, so the split
    * is at the first space and the action keeps any further spaces. */
  function ParseLine(raw: string): LineOutcome {
    var line := TrimSpace(raw);
    if line == [] || line[0] == '#' then Skipped  // strings.HasPrefix(line, "#")
    else
      var i := Index(line, ' ');
      if i < 0 then Rejected
      else Accepted(Rule(line[..i], line[i + 1..]))
  }

  /** A blank or comment line is skipped, a line without a space is rejected,
    * and any other line is its pattern, one space and its action. */
  lemma ParseLineCases(raw: string)
    ensures ParseLine(raw) == Skipped <==> TrimSpace(raw) == [] || TrimSpace(raw)[0] == '#'
    ensures ParseLine(raw) == Rejected <==> TrimSpace(raw) != [] && TrimSpace(raw)[0] != '#' && ' ' !in TrimSpace(raw)
    ensures ParseLine(raw).Accepted? ==>
      TrimSpace(raw) == ParseLine(raw).rule.pattern + " " + ParseLine(raw).rule.action && WellFormed(ParseLine(raw).rule)
  {
    var line := TrimSpace(raw);
    if line != [] && line[0] != '#' && ' ' in line {
      SplitAtSpace(line, Index(line, ' '));
    }
  }

  /** The two halves of a trimmed line around its first space. */
  lemma SplitAtSpace(line: string, i: int)
    requires line != [] && !IsSpace(line[0]) && !IsSpace(line[|line| - 1]) && line[0] != '#'
    requires 0 <= i < |line| && line[i] == ' ' && ' ' !in line[..i]
    ensures line == line[..i] + " " + line[i + 1..]
    ensures WellFormed(Rule(line[..i], line[i + 1..]))
  {
    // the trimmed line neither starts nor ends with a space
    assert i != 0 && i != |line| - 1 by { assert IsSpace(' '); }
  }

  /** Every rule the loader can produce is read back from its own line: the
    * split is at the first space, and the action keeps any later spaces. */
  lemma ParseFormatted(r: Rule)
    requires WellFormed(r)
    ensures ParseLine(r.pattern + " " + r.action) == Accepted(r)
  {
    var line := r.pattern + " " + r.action;
    assert line[0] == r.pattern[0] && line[|line| - 1] == r.action[|r.action| - 1];
    assert TrimLeftSpace(line) == line;
    assert TrimSpace(line) == line;
    assert line[|r.pattern|] == ' ' && line[..|r.pattern|] == r.pattern;
    var i := Index(line, ' ');
    assert i == |r.pattern|;
    assert line[i + 1..] == r.action;
  }

  /** The rules a sequence of lines contributes, in line order. */
  function ParseLines(lines: seq<string>): (rules: seq<Rule>)
    ensures |rules| <= |lines|
  {
    if lines == [] then []
    else ParseLines(lines[..|lines| - 1]) + Contribution(ParseLine(lines[|lines| - 1]))
  }

  /** The rules one line adds: its own rule when accepted, none otherwise. */
  function Contribution(outcome: LineOutcome): (rules: seq<Rule>)
    ensures |rules| <= 1
  {
    if outcome.Accepted? then [outcome.rule] else []
  }

  /** Every loaded rule has a non-empty pattern without spaces and a
    * non-empty action, because each line was trimmed before it was split. */
  lemma {:induction false} ParseLinesWellFormed(lines: seq<string>)
    ensures forall r :: r in ParseLines(lines) ==> WellFormed(r)
  {
    if lines != [] {
      ParseLinesWellFormed(lines[..|lines| - 1]);
      ParseLineCases(lines[|lines| - 1]);
    }
  }

  /** One more line read by the scanner loop. */
  lemma ParseLinesStep(lines: seq<string>, i: nat)
    requires i < |lines|
    ensures ParseLines(lines[..i + 1]) == ParseLines(lines[..i]) + Contribution(ParseLine(lines[i]))
  {
    assert lines[..i + 1][..i] == lines[..i];
  }

  /** Rules of a concatenation are the rules of the parts, in order. */
  lemma {:induction false} ParseLinesAppend(a: seq<string>, b: seq<string>)
    ensures ParseLines(a + b) == ParseLines(a) + ParseLines(b)
  {
    if b == [] {
      assert a + b == a;
    } else {
      var b' := b[..|b| - 1];
      var c := Contribution(ParseLine(b[|b| - 1]));
      assert (a + b)[..|a + b| - 1] == a + b';
      assert (a + b)[|a + b| - 1] == b[|b| - 1];
      assert ParseLines(a + b) == ParseLines(a + b') + c;
      ParseLinesAppend(a, b');
      assert ParseLines(a) + ParseLines(b') + c == ParseLines(a) + (ParseLines(b') + c);
    }
  }

  /** A line contributes its own rule, if any, at its own position, wherever it stands. */
  lemma LineContribution(before: seq<string>, line: string, after: seq<string>)
    ensures ParseLines(before + [line] + after) == ParseLines(before) + Contribution(ParseLine(line)) + ParseLines(after)
  {
    ParseLinesAppend(before + [line], after);
    assert (before + [line])[..|before|] == before;
  }

  /** A rule decides a request when its pattern occurs in the path and its
    * action is exactly "deny" or "allow" (compared case-sensitively). */
  predicate Decisive(r: Rule, path: string) {
    Contains(path, r.pattern) && (r.action == "deny" || r.action == "allow")
  }

  /** The first-match scan of ApplyHtaccess, as a decision. */
  function Decide(rules: seq<Rule>, path: string): Decision {
    if rules == [] then NoDecision
    else if Contains(path, rules[0].pattern) && rules[0].action == "deny" then Deny
    else if Contains(path, rules[0].pattern) && rules[0].action == "allow" then Allow
    else Decide(rules[1..], path)
  }

  /** The decision is that of the first decisive rule; there is none exactly
    * when no rule is decisive. */
  lemma {:induction false} DecideIsFirstDecisive(rules: seq<Rule>, path: string)
    ensures Decide(rules, path) == NoDecision <==> forall i :: 0 <= i < |rules| ==> !Decisive(rules[i], path)
    ensures forall i :: 0 <= i < |rules| && Decisive(rules[i], path)
                     && (forall j :: 0 <= j < i ==> !Decisive(rules[j], path))
                     ==> Decide(rules, path) == (if rules[i].action == "deny" then Deny else Allow)
  {
    if rules != [] {
      DecideIsFirstDecisive(rules[1..], path);
      assert forall i :: 1 <= i < |rules| ==> rules[i] == rules[1..][i - 1];
      if !Decisive(rules[0], path) {
        forall i | 0 <= i < |rules| && Decisive(rules[i], path) && (forall j :: 0 <= j < i ==> !Decisive(rules[j], path))
          ensures Decide(rules, path) == (if rules[i].action == "deny" then Deny else Allow)
        {
          assert i >= 1;
          assert forall j :: 0 <= j < i - 1 ==> rules[1..][j] == rules[j + 1];
        }
      }
    }
  }

  const ForbiddenMessage := "403 - Forbidden"

  /** The 403 that a deny writes. */
  function Forbid(w: Response): Response {
    w.WriteHeader(StatusForbidden).Write(Utf8(ForbiddenMessage))
  }

  /** The effect of ApplyHtaccess on the response: only a deny writes. */
  function Enforce(rules: seq<Rule>, path: string, w: Response): Response {
    if Decide(rules, path) == Deny then Forbid(w) else w
  }

  /** A deny on a fresh writer yields exactly status 403 and the fixed body;
    * every other decision writes nothing. */
  lemma EnforceOutcome(rules: seq<Rule>, path: string, w: Response)
    requires !w.Committed()
    ensures Decide(rules, path) == Deny ==>
      Enforce(rules, path, w) == w.(status := Some(403), body := w.body + Utf8(ForbiddenMessage))
    ensures Decide(rules, path) != Deny ==> Enforce(rules, path, w) == w
    ensures Enforce(rules, path, w).headers == w.headers
  {
  }

  /** The scanner loop of LoadHtaccess: each accepted line appends its rule
    * to those loaded before, in line order. */
  method ScanRules(loaded: seq<Rule>, lines: seq<string>) returns (rules: seq<Rule>)
    ensures rules == loaded + ParseLines(lines)
  {
    rules := loaded;
    var i := 0;
    while i < |lines|
      invariant 0 <= i <= |lines|
      invariant rules == loaded + ParseLines(lines[..i])
    {
      var outcome := ParseLine(lines[i]);
      ghost var before := ParseLines(lines[..i]);
      ParseLinesStep(lines, i);
      if outcome.Accepted? {
        rules := rules + [outcome.rule];
      }
      assert rules == (loaded + before) + Contribution(outcome);
      assert (loaded + before) + Contribution(outcome) == loaded + (before + Contribution(outcome));
      i := i + 1;
    }
    assert lines[..i] == lines;
  }

  class HtaccessPlugin {
    var rules: seq<Rule>

    /** NewHtaccessPlugin */
    constructor ()
      ensures rules == []
    {
      rules := [];
    }

    /** Appends the rules of the file's lines, in order, to the loaded ones.
      * An unopenable file changes nothing; a read error still keeps the rules
      * of the lines read before it. */
    method LoadHtaccess(file: RuleFile) returns (err: Option<LoadError>)
      modifies this
      ensures file.Unopenable? ==> err == Some(OpenError) && rules == old(rules)
      ensures file.Opened? ==> rules == old(rules) + ParseLines(file.lines)
      ensures file.Opened? ==> (err == if file.scanFailed then Some(ScanError) else None)
    {
      if file.Unopenable? {
        return Some(OpenError);
      }
      rules := ScanRules(rules, file.lines);
      if file.scanFailed {
        return Some(ScanError);
      }
      return None;
    }

    /** Scans the rules in order; the first decisive one decides, and a deny
      * writes 403 with the fixed body. Other actions are skipped. */
    method ApplyHtaccess(path: string, w: Response) returns (d: Decision, w': Response)
      ensures d == Decide(rules, path)
      ensures w' == Enforce(rules, path, w)
    {
      var i := 0;
      while i < |rules|
        invariant 0 <= i <= |rules|
        invariant Decide(rules, path) == Decide(rules[i..], path)
      {
        assert rules[i..][1..] == rules[i + 1..];
        var rule := rules[i];
        if Contains(path, rule.pattern) {
          if rule.action == "deny" {
            return Deny, Forbid(w);
          } else if rule.action == "allow" {
            return Allow, w;
          }
        }
        i := i + 1;
      }
      return NoDecision, w;
    }
  }
}
