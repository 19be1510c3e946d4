/** `PositionValidator`: the rules a position must pass before it is
    stored. The uniqueness rule asks storage, so the validator takes the
    code lookup `codeExists` as a parameter. */
module PositionValidator {
  import opened Models
  import opened ValidationRules
  import opened ValidatorUtils

  const CodeProperty := "PositionCode"
  const NameProperty := "PositionName"
  const CodePrefix := "VT"

  const CodeEmptyMessage := "Mã vị trí không được phép để trống"
  const CodeInvalidMessage := "Mã vị trí không hợp lệ"
  const CodeExistsMessage := "Mã vị trí đã tồn tại trong hệ thống"
  const NameEmptyMessage := "Tên vị trí không được phép để trống"

  /** The two `RuleFor` chains in declaration order. */
  function Rules(p: Position, codeExists: string -> bool): seq<Rule> {
    [ Rule(CodeProperty, [ Step(IsBlank(p.positionCode), CodeEmptyMessage),
                           Step(!MatchesCodePattern(CodePrefix, p.positionCode), CodeInvalidMessage),
                           Step(codeExists(p.positionCode), CodeExistsMessage) ]),
      Rule(NameProperty, [ Step(IsBlank(p.positionName), NameEmptyMessage) ]) ]
  }

  /** The failures of every rule, in declaration order. A position passes
      exactly when its code is "VT" and five digits and not yet stored, and
      its name is not blank. */
  function Validate(p: Position, codeExists: string -> bool): (errs: seq<ValidationFailure>)
    ensures errs == [] <==>
      MatchesCodePattern(CodePrefix, p.positionCode) && !codeExists(p.positionCode) && !IsBlank(p.positionName)
    ensures PropertyNames(errs) <= {CodeProperty, NameProperty}
  {
    RulesPass(p, codeExists);
    RunRules(Rules(p, codeExists))
  }

  /** Both chains pass exactly when the code is well formed and unused and
      the name is not blank. */
  lemma RulesPass(p: Position, codeExists: string -> bool)
    ensures var rs := Rules(p, codeExists);
      && Properties(rs) == {CodeProperty, NameProperty}
      && ((forall i :: 0 <= i < |rs| ==> FailedMessages(rs[i].chain) == []) <==>
            MatchesCodePattern(CodePrefix, p.positionCode) && !codeExists(p.positionCode) && !IsBlank(p.positionName))
  {
    BlankFailsCodePattern(CodePrefix, p.positionCode);
    var rs := Rules(p, codeExists);
    assert rs[0].property == CodeProperty && rs[1].property == NameProperty;
    ChainMessages(p, codeExists);
    assert (forall i :: 0 <= i < |rs| ==> FailedMessages(rs[i].chain) == []) <==>
      FailedMessages(rs[0].chain) == [] && FailedMessages(rs[1].chain) == [];
  }

  /** The failed links of each chain, written out. */
  lemma ChainMessages(p: Position, codeExists: string -> bool)
    ensures var rs := Rules(p, codeExists);
      && FailedMessages(rs[0].chain) ==
           (if IsBlank(p.positionCode) then [CodeEmptyMessage] else [])
           + (if !MatchesCodePattern(CodePrefix, p.positionCode) then [CodeInvalidMessage] else [])
           + (if codeExists(p.positionCode) then [CodeExistsMessage] else [])
      && FailedMessages(rs[1].chain) == if IsBlank(p.positionName) then [NameEmptyMessage] else []
  {
    var rs := Rules(p, codeExists);
    FailedMessagesThree(rs[0].chain[0], rs[0].chain[1], rs[0].chain[2]);
    FailedMessagesOne(rs[1].chain[0]);
  }

  lemma PropertiesDistinct(p: Position, codeExists: string -> bool)
    ensures DistinctProperties(Rules(p, codeExists))
  {
    assert CodeProperty[8] != NameProperty[8];
  }

  /** What the client sees after grouping: the code entry lists the failed
      code checks in declaration order (blank, format, already stored), the
      name entry its one message, each independently of the other field. */
  lemma GroupedErrors(p: Position, codeExists: string -> bool)
    ensures var m := ExtractErrors(Validate(p, codeExists));
      && m.Keys <= {CodeProperty, NameProperty}
      && (CodeProperty in m <==> !MatchesCodePattern(CodePrefix, p.positionCode) || codeExists(p.positionCode))
      && (CodeProperty in m ==>
            m[CodeProperty] ==
              (if IsBlank(p.positionCode) then [CodeEmptyMessage] else [])
              + (if !MatchesCodePattern(CodePrefix, p.positionCode) then [CodeInvalidMessage] else [])
              + (if codeExists(p.positionCode) then [CodeExistsMessage] else []))
      && (NameProperty in m <==> IsBlank(p.positionName))
      && (NameProperty in m ==> m[NameProperty] == [NameEmptyMessage])
  {
    CodeEntry(p, codeExists);
    NameEntry(p, codeExists);
  }

  lemma CodeEntry(p: Position, codeExists: string -> bool)
    ensures var m := ExtractErrors(Validate(p, codeExists));
      && m.Keys <= {CodeProperty, NameProperty}
      && (CodeProperty in m <==> !MatchesCodePattern(CodePrefix, p.positionCode) || codeExists(p.positionCode))
      && (CodeProperty in m ==>
            m[CodeProperty] ==
              (if IsBlank(p.positionCode) then [CodeEmptyMessage] else [])
              + (if !MatchesCodePattern(CodePrefix, p.positionCode) then [CodeInvalidMessage] else [])
              + (if codeExists(p.positionCode) then [CodeExistsMessage] else []))
  {
    var rs := Rules(p, codeExists);
    PropertiesDistinct(p, codeExists);
    BlankFailsCodePattern(CodePrefix, p.positionCode);
    assert Properties(rs) == {CodeProperty, NameProperty} by {
      assert rs[0].property == CodeProperty && rs[1].property == NameProperty;
    }
    ChainMessages(p, codeExists);
    GroupedRules(rs, 0);
  }

  lemma NameEntry(p: Position, codeExists: string -> bool)
    ensures var m := ExtractErrors(Validate(p, codeExists));
      && (NameProperty in m <==> IsBlank(p.positionName))
      && (NameProperty in m ==> m[NameProperty] == [NameEmptyMessage])
  {
    var rs := Rules(p, codeExists);
    PropertiesDistinct(p, codeExists);
    ChainMessages(p, codeExists);
    GroupedRules(rs, 1);
  }

  /** A stored code is reported as already existing, whatever else is wrong. */
  lemma StoredCodeRejected(p: Position, codeExists: string -> bool)
    requires codeExists(p.positionCode)
    ensures var m := ExtractErrors(Validate(p, codeExists));
      CodeProperty in m && CodeExistsMessage in m[CodeProperty]
  {
    GroupedErrors(p, codeExists);
  }
}
