/**
 * `apply_skill` and `apply_skills`: the (system, user) message pair sent to the
 * chat model, built from a template mapping. The model stops at the pair: the
 * request itself is not part of it. The prompt template engine that fills the
 * `{prompt}` placeholder is the parameter `format`.
 */
module Skills {
  import opened Wrappers
  import opened Text

  // Template identifiers the utilities read.
  const System: string := "system"
  const SystemMultiple: string := "system_multiple"
  const LangEng: string := "lang_eng"
  const LangDefault: string := "lang_default"
  const SimplerSuffix: string := "_simpler"

  /** First line of the composite instruction. */
  const Header: string := "[Prompt Engineering Techniques to Apply]\n"

  /** The markers around the prompt at the end of the composite instruction. */
  const PromptMarkers: string := "[original]\n{prompt}\n[improved]\n"

  /** The instruction text of the closing block, before the markers. */
  const ClosingLead: string :=
    "Based on [Prompt engineering techniques to apply], refine the prompt provided below. "
    + "Ensure that each technique is fully incorporated to achieve a clear and effective improvement:\n\n"

  /** Fixed block that closes the composite instruction. */
  const Closing: string := ClosingLead + PromptMarkers

  /** The request: one system message and one user message. */
  datatype MessagePair = MessagePair(system: string, user: string)

  /** A template identifier missing from the mapping (Python's `KeyError`). */
  datatype LookupError = KeyError(key: string)

  /**
   * The language directive `apply_skill` appends: the English one only for the
   * first step of an English run, the default one whenever English is not asked
   * for, and none for later steps of an English run.
   */
  function SingleDirectiveKey(langEng: bool, orderNum: int): (k: Option<string>)
    ensures k == Some(LangEng) <==> langEng && orderNum == 1
    ensures k == Some(LangDefault) <==> !langEng
    ensures k == None <==> langEng && orderNum != 1
  {
    if langEng && orderNum == 1 then Some(LangEng)
    else if !langEng then Some(LangDefault)
    else None
  }

  /**
   * The language directive `apply_skills` appends: always one, the one
   * `apply_skill` chooses for the first step.
   */
  function MultipleDirectiveKey(langEng: bool): (k: string)
    ensures Some(k) == SingleDirectiveKey(langEng, 1)
  {
    if langEng then LangEng else LangDefault
  }

  function OptionSeq(o: Option<string>): (s: seq<string>)
  {
    match o
    case None => []
    case Some(k) => [k]
  }

  /**
   * The index of the first key of `keys` the mapping lacks: the lookup that
   * raises, when the keys are looked up in this order.
   */
  function FirstMissing(keys: seq<string>, templates: map<string, string>): (r: Option<nat>)
    ensures r.None? <==> forall j :: 0 <= j < |keys| ==> keys[j] in templates
    ensures r.Some? ==> r.value < |keys| && keys[r.value] !in templates
    ensures r.Some? ==> forall j :: 0 <= j < r.value ==> keys[j] in templates
  {
    if keys == [] then None
    else if keys[0] !in templates then Some(0)
    else match FirstMissing(keys[1..], templates)
      case None => None
      case Some(i) => Some(i + 1)
  }

  /** The identifiers `apply_skill` looks up, in order. */
  function SingleSkillKeys(skill: string, orderNum: int, langEng: bool): seq<string>
  {
    [System] + OptionSeq(SingleDirectiveKey(langEng, orderNum)) + [skill]
  }

  /**
   * `apply_skill` up to the request: it fails on the first missing identifier
   * among the system template, the chosen language directive and the skill
   * template; otherwise the pair holds the system template with the chosen
   * directive (or none) and the filled skill template.
   */
  method ApplySkill(templates: map<string, string>, skill: string, prompt: string, orderNum: int,
                    langEng: bool, format: (string, string) -> string)
    returns (r: Result<MessagePair, LookupError>)
    ensures r.Failure? <==> FirstMissing(SingleSkillKeys(skill, orderNum, langEng), templates).Some?
    ensures r.Failure? ==>
      r.error == KeyError(SingleSkillKeys(skill, orderNum, langEng)[FirstMissing(SingleSkillKeys(skill, orderNum, langEng), templates).value])
    ensures r.Success? ==> System in templates && skill in templates
    ensures r.Success? && langEng && orderNum == 1 ==>
      LangEng in templates && r.value.system == templates[System] + "\n" + templates[LangEng]
    ensures r.Success? && !langEng ==>
      LangDefault in templates && r.value.system == templates[System] + "\n" + templates[LangDefault]
    ensures r.Success? && langEng && orderNum != 1 ==> r.value.system == templates[System]
    ensures r.Success? ==> r.value.user == format(templates[skill], prompt)
  {
    ghost var keys := SingleSkillKeys(skill, orderNum, langEng);
    if System !in templates {
      assert keys[0] == System;
      return Failure(KeyError(System));
    }
    var systemMessage := templates[System];
    if langEng && orderNum == 1 {
      if LangEng !in templates {
        assert keys[1] == LangEng;
        return Failure(KeyError(LangEng));
      }
      systemMessage := systemMessage + "\n" + templates[LangEng];
    } else if !langEng {
      if LangDefault !in templates {
        assert keys[1] == LangDefault;
        return Failure(KeyError(LangDefault));
      }
      systemMessage := systemMessage + "\n" + templates[LangDefault];
    }
    if skill !in templates {
      assert keys[|keys| - 1] == skill;
      return Failure(KeyError(skill));
    }
    var template := templates[skill];
    var formattedInput := format(template, prompt);
    return Success(MessagePair(systemMessage, formattedInput));
  }

  /** The skills of a selection that are switched on, in selection order. */
  function Enabled(selection: seq<(string, bool)>): (skills: seq<string>)
    ensures |skills| <= |selection|
    ensures forall s :: s in skills <==> (s, true) in selection
  {
    if selection == [] then []
    else
      assert selection == [selection[0]] + selection[1..];
      (if selection[0].1 then [selection[0].0] else []) + Enabled(selection[1..])
  }

  /** Selecting works entry by entry: a longer selection adds its own enabled skills at the end. */
  lemma {:induction false} EnabledAppend(a: seq<(string, bool)>, b: seq<(string, bool)>)
    ensures Enabled(a + b) == Enabled(a) + Enabled(b)
    decreases |a|
  {
    if a == [] {
      assert a + b == b;
    } else {
      assert (a + b)[0] == a[0] && (a + b)[1..] == a[1..] + b;
      EnabledAppend(a[1..], b);
    }
  }

  /** A single entry contributes its skill exactly when it is toggled on. */
  lemma EnabledOne(skill: string, toggled: bool)
    ensures Enabled([(skill, toggled)]) == if toggled then [skill] else []
  {
    assert [(skill, toggled)][1..] == [];
  }

  function SimplerKey(skill: string): string
  {
    skill + SimplerSuffix
  }

  function SimplerKeys(skills: seq<string>): (keys: seq<string>)
    ensures |keys| == |skills|
    ensures forall i :: 0 <= i < |skills| ==> keys[i] == SimplerKey(skills[i])
  {
    seq(|skills|, i requires 0 <= i < |skills| => SimplerKey(skills[i]))
  }

  /** The identifiers `apply_skills` looks up, in order. */
  function MultipleSkillKeys(selection: seq<(string, bool)>, langEng: bool): seq<string>
  {
    [SystemMultiple, MultipleDirectiveKey(langEng)] + SimplerKeys(Enabled(selection))
  }

  /** The templates stored under `keys`, in order. */
  function Lookups(keys: seq<string>, templates: map<string, string>): (texts: seq<string>)
    requires forall j :: 0 <= j < |keys| ==> keys[j] in templates
    ensures |texts| == |keys|
    ensures forall j :: 0 <= j < |keys| ==> texts[j] == templates[keys[j]]
  {
    seq(|keys|, j requires 0 <= j < |keys| => templates[keys[j]])
  }

  /** One line of the composite instruction: `f"{n}. {skill}: {text}\n"`. */
  function SkillLine(n: nat, skill: string, text: string): string
  {
    NatToString(n) + ". " + skill + ": " + text + "\n"
  }

  /** The lines for `skills`, numbered from `first` on. */
  function NumberedLines(skills: seq<string>, texts: seq<string>, first: nat): string
    requires |skills| == |texts|
    decreases |skills|
  {
    if skills == [] then ""
    else SkillLine(first, skills[0], texts[0]) + NumberedLines(skills[1..], texts[1..], first + 1)
  }

  /**
   * Numbering runs on across a split: the lines of the second part continue
   * from where the first part stopped.
   */
  lemma {:induction false} NumberedLinesSplit(s1: seq<string>, t1: seq<string>, s2: seq<string>, t2: seq<string>, first: nat)
    requires |s1| == |t1| && |s2| == |t2|
    ensures NumberedLines(s1 + s2, t1 + t2, first) == NumberedLines(s1, t1, first) + NumberedLines(s2, t2, first + |s1|)
    decreases |s1|
  {
    if s1 == [] {
      assert s1 + s2 == s2 && t1 + t2 == t2;
    } else {
      assert (s1 + s2)[0] == s1[0] && (s1 + s2)[1..] == s1[1..] + s2;
      assert (t1 + t2)[0] == t1[0] && (t1 + t2)[1..] == t1[1..] + t2;
      NumberedLinesSplit(s1[1..], t1[1..], s2, t2, first + 1);
    }
  }

  /** One more skill adds exactly one line, numbered right after the others. */
  lemma NumberedLinesAppend(skills: seq<string>, texts: seq<string>, first: nat, skill: string, text: string)
    requires |skills| == |texts|
    ensures NumberedLines(skills + [skill], texts + [text], first)
         == NumberedLines(skills, texts, first) + SkillLine(first + |skills|, skill, text)
  {
    NumberedLinesSplit(skills, texts, [skill], [text], first);
    assert NumberedLines([skill], [text], first + |skills|) == SkillLine(first + |skills|, skill, text) + "";
  }

  /** Consecutive numbering: the line of the `k`-th skill (from 0) carries the number `first + k`. */
  lemma NumberedLinesAt(skills: seq<string>, texts: seq<string>, first: nat, k: nat)
    requires |skills| == |texts| && k < |skills|
    ensures NumberedLines(skills, texts, first)
         == NumberedLines(skills[..k], texts[..k], first)
          + SkillLine(first + k, skills[k], texts[k])
          + NumberedLines(skills[k + 1..], texts[k + 1..], first + k + 1)
  {
    var s1, t1, s2, t2 := skills[..k], texts[..k], skills[k..], texts[k..];
    assert skills == s1 + s2 && texts == t1 + t2;
    NumberedLinesSplit(s1, t1, s2, t2, first);
    assert s2[0] == skills[k] && t2[0] == texts[k];
    assert s2[1..] == skills[k + 1..] && t2[1..] == texts[k + 1..];
    assert NumberedLines(s2, t2, first + k)
        == SkillLine(first + k, skills[k], texts[k]) + NumberedLines(skills[k + 1..], texts[k + 1..], first + k + 1);
  }

  /** The text after `head` for the first `idx + 1` skills is that for the first `idx` plus the line of skill `idx`. */
  lemma PrefixLinesStep(head: string, skills: seq<string>, texts: seq<string>, idx: nat, text: string)
    requires idx < |skills| && |texts| == idx
    ensures head + NumberedLines(skills[..idx + 1], texts + [text], 1)
         == head + NumberedLines(skills[..idx], texts, 1) + SkillLine(idx + 1, skills[idx], text)
  {
    NumberedLinesAppend(skills[..idx], texts, 1, skills[idx], text);
    assert skills[..idx + 1] == skills[..idx] + [skills[idx]];
  }

  /**
   * Where the parts of `head + body + (lead + tail)` sit: it starts with
   * `head` and ends with `lead + tail` and with `tail`.
   */
  lemma FrameParts(head: string, body: string, lead: string, tail: string)
    ensures |head + body + (lead + tail)| >= |head| + |lead + tail|
    ensures (head + body + (lead + tail))[..|head|] == head
    ensures (head + body + (lead + tail))[|head + body + (lead + tail)| - |lead + tail|..] == lead + tail
    ensures (head + body + (lead + tail))[|head + body + (lead + tail)| - |tail|..] == tail
  {
    var r := head + body + (lead + tail);
    assert r == (head + body + lead) + tail;
    assert r[|head| + |body|..] == lead + tail;
    assert r[|head| + |body| + |lead|..] == tail;
  }

  /** The composite instruction before the prompt is substituted. */
  function Instruction(skills: seq<string>, texts: seq<string>): (r: string)
    requires |skills| == |texts|
    ensures |r| >= |Header| + |Closing|
    ensures r[..|Header|] == Header
    ensures r[|r| - |Closing|..] == Closing
    ensures r[|r| - |PromptMarkers|..] == PromptMarkers
  {
    FrameParts(Header, NumberedLines(skills, texts, 1), ClosingLead, PromptMarkers);
    Header + NumberedLines(skills, texts, 1) + Closing
  }

  /**
   * Keys in front that are all present do not change which lookup fails
   * first; they only move its index.
   */
  lemma {:induction false} FirstMissingAfter(pre: seq<string>, rest: seq<string>, templates: map<string, string>)
    requires forall j :: 0 <= j < |pre| ==> pre[j] in templates
    ensures FirstMissing(pre + rest, templates).None? <==> FirstMissing(rest, templates).None?
    ensures FirstMissing(rest, templates).Some? ==>
      FirstMissing(pre + rest, templates) == Some(|pre| + FirstMissing(rest, templates).value)
    decreases |pre|
  {
    if pre == [] {
      assert pre + rest == rest;
    } else {
      assert (pre + rest)[0] == pre[0] && (pre + rest)[1..] == pre[1..] + rest;
      FirstMissingAfter(pre[1..], rest, templates);
    }
  }

  /**
   * The loop of `apply_skills` that builds the composite instruction: it stops
   * at the first enabled skill whose `<skill>_simpler` template is missing, and
   * otherwise yields the header, one numbered line per skill and the closing
   * block.
   */
  method ComposeInstruction(templates: map<string, string>, skills: seq<string>)
    returns (r: Result<string, LookupError>)
    ensures r.Failure? <==> FirstMissing(SimplerKeys(skills), templates).Some?
    ensures r.Failure? ==> r.error == KeyError(SimplerKey(skills[FirstMissing(SimplerKeys(skills), templates).value]))
    ensures r.Success? ==> forall j :: 0 <= j < |skills| ==> SimplerKey(skills[j]) in templates
    ensures r.Success? ==> r.value == Instruction(skills, Lookups(SimplerKeys(skills), templates))
  {
    ghost var keys := SimplerKeys(skills);
    var integratedTemplates := Header;
    ghost var texts: seq<string> := [];
    for idx := 0 to |skills|
      invariant |texts| == idx
      invariant forall j :: 0 <= j < idx ==> keys[j] in templates && texts[j] == templates[keys[j]]
      invariant integratedTemplates == Header + NumberedLines(skills[..idx], texts, 1)
    {
      var key := SimplerKey(skills[idx]);
      if key !in templates {
        assert FirstMissing(keys, templates).value == idx;
        return Failure(KeyError(key));
      }
      var template := templates[key];
      var line := NatToString(idx + 1) + ". " + skills[idx] + ": " + template + "\n";
      PrefixLinesStep(Header, skills, texts, idx, template);
      integratedTemplates := integratedTemplates + line;
      texts := texts + [template];
    }
    assert skills[..|skills|] == skills;
    ghost var looked := Lookups(keys, templates);
    assert texts == looked by {
      assert |texts| == |looked|;
      forall j | 0 <= j < |texts| ensures texts[j] == looked[j] { }
    }
    assert integratedTemplates + Closing == Instruction(skills, looked);
    integratedTemplates := integratedTemplates + Closing;
    return Success(integratedTemplates);
  }

  /**
   * `apply_skills` up to the request: it fails on the first missing identifier
   * among the multi-skill system template, the language directive and the
   * `<skill>_simpler` template of each enabled skill; otherwise the pair holds
   * the multi-skill system template with exactly one directive and the filled
   * composite instruction.
   */
  method ApplySkills(templates: map<string, string>, skillsToApply: seq<(string, bool)>, prompt: string,
                     langEng: bool, format: (string, string) -> string)
    returns (r: Result<MessagePair, LookupError>)
    ensures r.Failure? <==> FirstMissing(MultipleSkillKeys(skillsToApply, langEng), templates).Some?
    ensures r.Failure? ==>
      r.error == KeyError(MultipleSkillKeys(skillsToApply, langEng)[FirstMissing(MultipleSkillKeys(skillsToApply, langEng), templates).value])
    ensures r.Success? ==> SystemMultiple in templates && MultipleDirectiveKey(langEng) in templates
    ensures r.Success? ==>
      forall j :: 0 <= j < |Enabled(skillsToApply)| ==> SimplerKey(Enabled(skillsToApply)[j]) in templates
    ensures r.Success? ==> r.value.system == templates[SystemMultiple] + "\n" + templates[MultipleDirectiveKey(langEng)]
    ensures r.Success? ==>
      r.value.user == format(Instruction(Enabled(skillsToApply), Lookups(SimplerKeys(Enabled(skillsToApply)), templates)), prompt)
  {
    ghost var keys := MultipleSkillKeys(skillsToApply, langEng);
    if SystemMultiple !in templates {
      assert keys[0] == SystemMultiple;
      return Failure(KeyError(SystemMultiple));
    }
    var systemMessage := templates[SystemMultiple];
    if langEng {
      if LangEng !in templates {
        assert keys[1] == LangEng;
        return Failure(KeyError(LangEng));
      }
      systemMessage := systemMessage + "\n" + templates[LangEng];
    } else {
      if LangDefault !in templates {
        assert keys[1] == LangDefault;
        return Failure(KeyError(LangDefault));
      }
      systemMessage := systemMessage + "\n" + templates[LangDefault];
    }

    var skills := Enabled(skillsToApply);
    FirstMissingAfter([SystemMultiple, MultipleDirectiveKey(langEng)], SimplerKeys(skills), templates);
    var integratedTemplates := ComposeInstruction(templates, skills);
    if integratedTemplates.Failure? {
      return Failure(integratedTemplates.error);
    }
    var formattedInput := format(integratedTemplates.value, prompt);
    return Success(MessagePair(systemMessage, formattedInput));
  }

  /** The example selection {A: on, B: off, C: on} enables A and C, in that order. */
  lemma EnabledExample()
    ensures Enabled([("A", true), ("B", false), ("C", true)]) == ["A", "C"]
  {
    EnabledOne("A", true);
    EnabledOne("B", false);
    EnabledOne("C", true);
    EnabledAppend([("A", true)], [("B", false)]);
    EnabledAppend([("A", true), ("B", false)], [("C", true)]);
    assert [("A", true)] + [("B", false)] == [("A", true), ("B", false)];
    assert [("A", true), ("B", false)] + [("C", true)] == [("A", true), ("B", false), ("C", true)];
  }

  /**
   * For the skills A and C the composite instruction lists exactly the lines
   * numbered 1 and 2, in that order, between the header and the closing block.
   */
  lemma InstructionExample(a: string, c: string)
    ensures Instruction(["A", "C"], [a, c])
         == Header + ("1. A: " + a + "\n") + ("2. C: " + c + "\n") + Closing
  {
    NumberedLinesAppend(["A"], [a], 1, "C", c);
    assert ["A"] + ["C"] == ["A", "C"] && [a] + [c] == [a, c];
    assert NumberedLines(["A"], [a], 1) == SkillLine(1, "A", a) + "";
    assert NatToString(1) == "1" && NatToString(2) == "2";
    assert SkillLine(1, "A", a) == "1. A: " + a + "\n";
    assert SkillLine(2, "C", c) == "2. C: " + c + "\n";
  }
}
