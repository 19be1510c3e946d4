/** `ValidationUtils.ExtractErrors`: the failures of one validation run,
    grouped into property name -> messages, each list in the order the
    failures were reported. */
module ValidatorUtils {
  import opened Ordering

  /** One failed check: the property it is about and its message. */
  datatype ValidationFailure = ValidationFailure(propertyName: string, errorMessage: string)

  /** The `Dictionary<string, List<string>>` handed to the client. */
  type ErrorMap = map<string, seq<string>>

  function Last<T>(s: seq<T>): T
    requires |s| > 0
  {
    s[|s| - 1]
  }

  function DropLast<T>(s: seq<T>): seq<T>
    requires |s| > 0
  {
    s[..|s| - 1]
  }

  /** The failure a single chained check reports, if it fails. */
  function FailureIf(fails: bool, property: string, message: string): (errs: seq<ValidationFailure>)
    ensures |errs| <= 1
    ensures forall i :: 0 <= i < |errs| ==> errs[i].propertyName == property
  {
    if fails then [ValidationFailure(property, message)] else []
  }

  /** One turn of the loop: start a list for a new property name, append
      to the existing list otherwise. */
  function AddError(m: ErrorMap, e: ValidationFailure): (m': ErrorMap)
    ensures m'.Keys == m.Keys + {e.propertyName}
    ensures m'[e.propertyName] == (if e.propertyName in m then m[e.propertyName] else []) + [e.errorMessage]
    ensures forall p :: p in m && p != e.propertyName ==> m'[p] == m[p]
  {
    if e.propertyName !in m then m[e.propertyName := [e.errorMessage]]
    else m[e.propertyName := m[e.propertyName] + [e.errorMessage]]
  }

  /** The loop over the failures, in order. */
  function ExtractErrors(errs: seq<ValidationFailure>): (m: ErrorMap)
    ensures forall p :: p in m ==> m[p] != []
    ensures errs == [] <==> m == map[]
    decreases |errs|
  {
    if errs == [] then map[] else AddError(ExtractErrors(DropLast(errs)), Last(errs))
  }

  /** Reference definition: the property names that occur among the failures. */
  function PropertyNames(errs: seq<ValidationFailure>): set<string> {
    set i | 0 <= i < |errs| :: errs[i].propertyName
  }

  /** Reference definition: the messages of the failures about `p`, in order. */
  function MessagesOf(errs: seq<ValidationFailure>, p: string): seq<string> {
    if errs == [] then []
    else (if errs[0].propertyName == p then [errs[0].errorMessage] else []) + MessagesOf(errs[1..], p)
  }

  lemma {:induction false} MessagesOfAppend(a: seq<ValidationFailure>, b: seq<ValidationFailure>, p: string)
    ensures MessagesOf(a + b, p) == MessagesOf(a, p) + MessagesOf(b, p)
    decreases |a|
  {
    if a == [] {
      assert a + b == b;
    } else {
      assert (a + b)[0] == a[0];
      assert (a + b)[1..] == a[1..] + b;
      MessagesOfAppend(a[1..], b, p);
      var head := if a[0].propertyName == p then [a[0].errorMessage] else [];
      assert MessagesOf(a + b, p) == head + MessagesOf((a + b)[1..], p);
      assert MessagesOf(a, p) == head + MessagesOf(a[1..], p);
      assert head + (MessagesOf(a[1..], p) + MessagesOf(b, p)) == (head + MessagesOf(a[1..], p)) + MessagesOf(b, p);
    }
  }

  lemma {:induction false} MessagesOfAbsent(errs: seq<ValidationFailure>, p: string)
    requires p !in PropertyNames(errs)
    ensures MessagesOf(errs, p) == []
    decreases |errs|
  {
    if errs != [] {
      assert errs[0].propertyName in PropertyNames(errs);
      assert PropertyNames(errs[1..]) <= PropertyNames(errs) by {
        forall q | q in PropertyNames(errs[1..])
          ensures q in PropertyNames(errs)
        {
          var i :| 0 <= i < |errs[1..]| && errs[1..][i].propertyName == q;
          assert errs[i + 1].propertyName == q;
        }
      }
      MessagesOfAbsent(errs[1..], p);
    }
  }

  lemma MessagesOfFailureIf(fails: bool, property: string, message: string, p: string)
    ensures MessagesOf(FailureIf(fails, property, message), p) == if fails && property == p then [message] else []
  {
  }

  lemma PropertyNamesSnoc(errs: seq<ValidationFailure>, e: ValidationFailure)
    ensures PropertyNames(errs + [e]) == PropertyNames(errs) + {e.propertyName}
  {
    var s := errs + [e];
    assert s[|errs|] == e;
    forall q | q in PropertyNames(s)
      ensures q in PropertyNames(errs) + {e.propertyName}
    {
      var i :| 0 <= i < |s| && s[i].propertyName == q;
      if i < |errs| {
        assert errs[i].propertyName == q;
      }
    }
    forall q | q in PropertyNames(errs)
      ensures q in PropertyNames(s)
    {
      var i :| 0 <= i < |errs| && errs[i].propertyName == q;
      assert s[i].propertyName == q;
    }
  }

  /** The grouped map has exactly the property names that occur as keys, and
      each key's list is that property's messages in their original order. */
  lemma {:induction false} ExtractErrorsGroups(errs: seq<ValidationFailure>)
    ensures ExtractErrors(errs).Keys == PropertyNames(errs)
    ensures forall p :: p in ExtractErrors(errs) ==> ExtractErrors(errs)[p] == MessagesOf(errs, p)
    ensures forall p :: p in ExtractErrors(errs) <==> MessagesOf(errs, p) != []
    decreases |errs|
  {
    forall p | p !in PropertyNames(errs)
      ensures MessagesOf(errs, p) == []
    {
      MessagesOfAbsent(errs, p);
    }
    if errs != [] {
      var init, e := DropLast(errs), Last(errs);
      assert errs == init + [e];
      ExtractErrorsGroups(init);
      PropertyNamesSnoc(init, e);
      forall p | p in ExtractErrors(errs)
        ensures ExtractErrors(errs)[p] == MessagesOf(errs, p)
      {
        MessagesOfAppend(init, [e], p);
        assert MessagesOf([e], p) == (if e.propertyName == p then [e.errorMessage] else []);
        if p !in ExtractErrors(init) {
          MessagesOfAbsent(init, p);
        }
      }
    }
  }

  /** A property has an entry exactly when some failure is about it. */
  lemma KeyIffFailure(errs: seq<ValidationFailure>, p: string)
    ensures p in ExtractErrors(errs) <==> exists i :: 0 <= i < |errs| && errs[i].propertyName == p
  {
    ExtractErrorsGroups(errs);
  }

  /** Processing one more failure touches only the entry of its property. */
  lemma ExtractErrorsStep(errs: seq<ValidationFailure>, e: ValidationFailure)
    ensures var before, after := ExtractErrors(errs), ExtractErrors(errs + [e]);
      && after.Keys == before.Keys + {e.propertyName}
      && after[e.propertyName] == (if e.propertyName in before then before[e.propertyName] else []) + [e.errorMessage]
      && forall p :: p in before && p != e.propertyName ==> after[p] == before[p]
  {
    assert DropLast(errs + [e]) == errs;
  }

  // ---- the total number of messages ----

  /** The property names in the order they first occur: the order in which
      the dictionary's entries were created. */
  function KeyOrder(errs: seq<ValidationFailure>): seq<string>
    decreases |errs|
  {
    if errs == [] then []
    else
      var ks := KeyOrder(DropLast(errs));
      if Last(errs).propertyName in ks then ks else ks + [Last(errs).propertyName]
  }

  /** The total length of the lists filed under `ks`. */
  function SumLengths(m: ErrorMap, ks: seq<string>): nat
    requires forall i :: 0 <= i < |ks| ==> ks[i] in m
  {
    if ks == [] then 0 else |m[ks[0]]| + SumLengths(m, ks[1..])
  }

  lemma {:induction false} SumLengthsFrame(m: ErrorMap, m': ErrorMap, ks: seq<string>)
    requires forall i :: 0 <= i < |ks| ==> ks[i] in m && ks[i] in m' && m'[ks[i]] == m[ks[i]]
    ensures SumLengths(m', ks) == SumLengths(m, ks)
    decreases |ks|
  {
    if ks != [] {
      SumLengthsFrame(m, m', ks[1..]);
    }
  }

  lemma {:induction false} SumLengthsSnoc(m: ErrorMap, ks: seq<string>, k: string)
    requires forall i :: 0 <= i < |ks| ==> ks[i] in m
    requires k in m
    ensures SumLengths(m, ks + [k]) == SumLengths(m, ks) + |m[k]|
    decreases |ks|
  {
    if ks != [] {
      assert (ks + [k])[1..] == ks[1..] + [k];
      SumLengthsSnoc(m, ks[1..], k);
    }
  }

  /** Appending one message under a key listed once adds one to the total. */
  lemma {:induction false} SumLengthsGrow(m: ErrorMap, ks: seq<string>, k: string, msg: string)
    requires forall i :: 0 <= i < |ks| ==> ks[i] in m
    requires Distinct(ks) && k in ks && k in m
    ensures SumLengths(m[k := m[k] + [msg]], ks) == SumLengths(m, ks) + 1
    decreases |ks|
  {
    var m' := m[k := m[k] + [msg]];
    if ks[0] == k {
      assert k !in ks[1..];
      SumLengthsFrame(m, m', ks[1..]);
    } else {
      SumLengthsGrow(m, ks[1..], k, msg);
    }
  }

  /** The lists together hold every failure exactly once: their lengths,
      taken over the keys in creation order, add up to the number of
      failures. */
  lemma {:induction false} TotalMessages(errs: seq<ValidationFailure>)
    ensures Distinct(KeyOrder(errs))
    ensures forall i :: 0 <= i < |KeyOrder(errs)| ==> KeyOrder(errs)[i] in ExtractErrors(errs)
    ensures forall p :: p in ExtractErrors(errs) ==> p in KeyOrder(errs)
    ensures SumLengths(ExtractErrors(errs), KeyOrder(errs)) == |errs|
    decreases |errs|
  {
    if errs != [] {
      var init, e := DropLast(errs), Last(errs);
      TotalMessages(init);
      var m, ks := ExtractErrors(init), KeyOrder(init);
      var m' := ExtractErrors(errs);
      var p := e.propertyName;
      if p in ks {
        assert m' == m[p := m[p] + [e.errorMessage]];
        SumLengthsGrow(m, ks, p, e.errorMessage);
      } else {
        assert p !in m;
        SumLengthsFrame(m, m', ks);
        SumLengthsSnoc(m', ks, p);
      }
    }
  }

  // ---- rule chains ----

  /** One link of a `RuleFor(...)` chain: whether its check fails on the
      value, and the message `WithMessage` attaches to it. */
  datatype Step = Step(fails: bool, message: string)

  /** A `RuleFor(property)` chain. With the default cascade mode every link
      runs, whatever the links before it found. */
  datatype Rule = Rule(property: string, chain: seq<Step>)

  /** The message of a link if it fails. */
  function StepMessage(s: Step): seq<string> {
    if s.fails then [s.message] else []
  }

  /** The messages of the failing links, in chain order. */
  function FailedMessages(chain: seq<Step>): (msgs: seq<string>)
    ensures msgs == [] <==> forall i :: 0 <= i < |chain| ==> !chain[i].fails
    ensures |msgs| <= |chain|
  {
    if chain == [] then [] else StepMessage(chain[0]) + FailedMessages(chain[1..])
  }

  lemma FailedMessagesOne(a: Step)
    ensures FailedMessages([a]) == StepMessage(a)
  {
    assert [a][1..] == [];
  }

  lemma FailedMessagesTwo(a: Step, b: Step)
    ensures FailedMessages([a, b]) == StepMessage(a) + StepMessage(b)
  {
    assert [a, b][1..] == [b];
    FailedMessagesOne(b);
  }

  lemma FailedMessagesThree(a: Step, b: Step, c: Step)
    ensures FailedMessages([a, b, c]) == StepMessage(a) + StepMessage(b) + StepMessage(c)
  {
    assert [a, b, c][1..] == [b, c];
    FailedMessagesTwo(b, c);
  }

  /** The failures one chain reports, all about its property. */
  function RunRule(r: Rule): (errs: seq<ValidationFailure>)
    ensures forall i :: 0 <= i < |errs| ==> errs[i].propertyName == r.property
    ensures errs == [] <==> FailedMessages(r.chain) == []
    decreases |r.chain|
  {
    if r.chain == [] then []
    else FailureIf(r.chain[0].fails, r.property, r.chain[0].message) + RunRule(Rule(r.property, r.chain[1..]))
  }

  /** The properties the rules are declared for. */
  function Properties(rs: seq<Rule>): set<string> {
    set i | 0 <= i < |rs| :: rs[i].property
  }

  /** No property has two `RuleFor` chains. */
  predicate DistinctProperties(rs: seq<Rule>) {
    forall i, j :: 0 <= i < j < |rs| ==> rs[i].property != rs[j].property
  }

  /** A validator run: the chains in declaration order, each one's failures
      after those of the chains before it. */
  function RunRules(rs: seq<Rule>): (errs: seq<ValidationFailure>)
    ensures errs == [] <==> forall i :: 0 <= i < |rs| ==> FailedMessages(rs[i].chain) == []
    ensures PropertyNames(errs) <= Properties(rs)
  {
    if rs == [] then []
    else
      var head, tail := RunRule(rs[0]), RunRules(rs[1..]);
      assert forall i :: 1 <= i < |rs| ==> rs[i] == rs[1..][i - 1];
      assert PropertyNames(head + tail) <= Properties(rs) by {
        forall q | q in PropertyNames(head + tail)
          ensures q in Properties(rs)
        {
          var k :| 0 <= k < |head + tail| && (head + tail)[k].propertyName == q;
          if k < |head| {
            assert head[k].propertyName == rs[0].property;
          } else {
            assert tail[k - |head|].propertyName == q;
            assert q in PropertyNames(tail);
            var j :| 0 <= j < |rs[1..]| && rs[1..][j].property == q;
            assert rs[j + 1].property == q;
          }
        }
      }
      head + tail
  }

  lemma {:induction false} RunRuleMessages(r: Rule, p: string)
    ensures MessagesOf(RunRule(r), p) == if p == r.property then FailedMessages(r.chain) else []
    decreases |r.chain|
  {
    if r.chain != [] {
      var rest := Rule(r.property, r.chain[1..]);
      RunRuleMessages(rest, p);
      MessagesOfFailureIf(r.chain[0].fails, r.property, r.chain[0].message, p);
      MessagesOfAppend(FailureIf(r.chain[0].fails, r.property, r.chain[0].message), RunRule(rest), p);
    }
  }

  /** No chain, no messages. */
  lemma RunRulesMessagesAbsent(rs: seq<Rule>, p: string)
    requires p !in Properties(rs)
    ensures MessagesOf(RunRules(rs), p) == []
  {
    MessagesOfAbsent(RunRules(rs), p);
  }

  lemma DistinctPropertiesTail(rs: seq<Rule>)
    requires DistinctProperties(rs) && rs != []
    ensures DistinctProperties(rs[1..])
    ensures rs[0].property !in Properties(rs[1..])
  {
    var tail := rs[1..];
    forall i, j | 0 <= i < j < |tail|
      ensures tail[i].property != tail[j].property
    {
      assert tail[i] == rs[i + 1] && tail[j] == rs[j + 1];
    }
    forall j | 0 <= j < |tail|
      ensures tail[j].property != rs[0].property
    {
      assert tail[j] == rs[j + 1];
    }
  }

  /** The messages a validator run files under a property are the failed
      links of that property's chain, in chain order. */
  lemma {:induction false} RunRulesMessages(rs: seq<Rule>, i: nat)
    requires DistinctProperties(rs) && i < |rs|
    ensures MessagesOf(RunRules(rs), rs[i].property) == FailedMessages(rs[i].chain)
    decreases i
  {
    if i == 0 {
      RunRulesHead(rs);
    } else {
      var tail := rs[1..];
      DistinctPropertiesTail(rs);
      assert tail[i - 1] == rs[i];
      RunRulesSkipHead(rs, rs[i].property);
      RunRulesMessages(tail, i - 1);
    }
  }

  /** The first rule's property collects exactly that rule's failures. */
  lemma RunRulesHead(rs: seq<Rule>)
    requires DistinctProperties(rs) && rs != []
    ensures MessagesOf(RunRules(rs), rs[0].property) == FailedMessages(rs[0].chain)
  {
    var p, tail := rs[0].property, rs[1..];
    var head, rest := RunRule(rs[0]), RunRules(tail);
    assert RunRules(rs) == head + rest;
    DistinctPropertiesTail(rs);
    RunRuleMessages(rs[0], p);
    MessagesOfAppend(head, rest, p);
    RunRulesMessagesAbsent(tail, p);
  }

  /** Any other property collects nothing from the first rule. */
  lemma RunRulesSkipHead(rs: seq<Rule>, p: string)
    requires rs != [] && p != rs[0].property
    ensures MessagesOf(RunRules(rs), p) == MessagesOf(RunRules(rs[1..]), p)
  {
    var head, rest := RunRule(rs[0]), RunRules(rs[1..]);
    assert RunRules(rs) == head + rest;
    RunRuleMessages(rs[0], p);
    MessagesOfAppend(head, rest, p);
  }

  /** What the client receives from a validator run: an entry for a
      property exactly when some link of its chain failed, holding the
      failed links' messages in chain order. */
  lemma GroupedRules(rs: seq<Rule>, i: nat)
    requires DistinctProperties(rs) && i < |rs|
    ensures var m := ExtractErrors(RunRules(rs));
      && m.Keys <= Properties(rs)
      && (rs[i].property in m <==> FailedMessages(rs[i].chain) != [])
      && (rs[i].property in m ==> m[rs[i].property] == FailedMessages(rs[i].chain))
  {
    ExtractErrorsGroups(RunRules(rs));
    RunRulesMessages(rs, i);
  }
}
