/** `DepartmentValidator`: the rules a department must pass before it is
    stored. The uniqueness rule asks storage, so the validator takes the
    code lookup `codeExists` as a parameter. */
module DepartmentValidator {
  import opened Models
  import opened ValidationRules
  import opened ValidatorUtils

  const CodeProperty := "DepartmentCode"
  const NameProperty := "DepartmentName"
  const CodePrefix := "PB"

  const CodeEmptyMessage := "Mã phòng ban không được phép để trống"
  const CodeInvalidMessage := "Mã phòng ban không hợp lệ"
  const CodeExistsMessage := "Mã phòng ban đã tồn tại trong hệ thống"
  const NameEmptyMessage := "Tên phòng ban không được phép để trống"

  /** The two `RuleFor` chains in declaration order. */
  function Rules(d: Department, codeExists: string -> bool): seq<Rule> {
    [ Rule(CodeProperty, [ Step(IsBlank(d.departmentCode), CodeEmptyMessage),
                           Step(!MatchesCodePattern(CodePrefix, d.departmentCode), CodeInvalidMessage),
                           Step(codeExists(d.departmentCode), CodeExistsMessage) ]),
      Rule(NameProperty, [ Step(IsBlank(d.departmentName), NameEmptyMessage) ]) ]
  }

  /** The failures of every rule, in declaration order. A department passes
      exactly when its code is "PB" and five digits and not yet stored, and
      its name is not blank. */
  function Validate(d: Department, codeExists: string -> bool): (errs: seq<ValidationFailure>)
    ensures errs == [] <==>
      MatchesCodePattern(CodePrefix, d.departmentCode) && !codeExists(d.departmentCode) && !IsBlank(d.departmentName)
    ensures PropertyNames(errs) <= {CodeProperty, NameProperty}
  {
    RulesPass(d, codeExists);
    RunRules(Rules(d, codeExists))
  }

  /** Both chains pass exactly when the code is well formed and unused and
      the name is not blank. */
  lemma RulesPass(d: Department, codeExists: string -> bool)
    ensures var rs := Rules(d, codeExists);
      && Properties(rs) == {CodeProperty, NameProperty}
      && ((forall i :: 0 <= i < |rs| ==> FailedMessages(rs[i].chain) == []) <==>
            MatchesCodePattern(CodePrefix, d.departmentCode) && !codeExists(d.departmentCode) && !IsBlank(d.departmentName))
  {
    BlankFailsCodePattern(CodePrefix, d.departmentCode);
    var rs := Rules(d, codeExists);
    assert rs[0].property == CodeProperty && rs[1].property == NameProperty;
    ChainMessages(d, codeExists);
    assert (forall i :: 0 <= i < |rs| ==> FailedMessages(rs[i].chain) == []) <==>
      FailedMessages(rs[0].chain) == [] && FailedMessages(rs[1].chain) == [];
  }

  /** The failed links of each chain, written out. */
  lemma ChainMessages(d: Department, codeExists: string -> bool)
    ensures var rs := Rules(d, codeExists);
      && FailedMessages(rs[0].chain) ==
           (if IsBlank(d.departmentCode) then [CodeEmptyMessage] else [])
           + (if !MatchesCodePattern(CodePrefix, d.departmentCode) then [CodeInvalidMessage] else [])
           + (if codeExists(d.departmentCode) then [CodeExistsMessage] else [])
      && FailedMessages(rs[1].chain) == if IsBlank(d.departmentName) then [NameEmptyMessage] else []
  {
    var rs := Rules(d, codeExists);
    FailedMessagesThree(rs[0].chain[0], rs[0].chain[1], rs[0].chain[2]);
    FailedMessagesOne(rs[1].chain[0]);
  }

  lemma PropertiesDistinct(d: Department, codeExists: string -> bool)
    ensures DistinctProperties(Rules(d, codeExists))
  {
    assert CodeProperty[10] != NameProperty[10];
  }

  /** What the client sees after grouping: the code entry lists the failed
      code checks in declaration order (blank, format, already stored), the
      name entry its one message, each independently of the other field. */
  lemma GroupedErrors(d: Department, codeExists: string -> bool)
    ensures var m := ExtractErrors(Validate(d, codeExists));
      && m.Keys <= {CodeProperty, NameProperty}
      && (CodeProperty in m <==> !MatchesCodePattern(CodePrefix, d.departmentCode) || codeExists(d.departmentCode))
      && (CodeProperty in m ==>
            m[CodeProperty] ==
              (if IsBlank(d.departmentCode) then [CodeEmptyMessage] else [])
              + (if !MatchesCodePattern(CodePrefix, d.departmentCode) then [CodeInvalidMessage] else [])
              + (if codeExists(d.departmentCode) then [CodeExistsMessage] else []))
      && (NameProperty in m <==> IsBlank(d.departmentName))
      && (NameProperty in m ==> m[NameProperty] == [NameEmptyMessage])
  {
    CodeEntry(d, codeExists);
    NameEntry(d, codeExists);
  }

  lemma CodeEntry(d: Department, codeExists: string -> bool)
    ensures var m := ExtractErrors(Validate(d, codeExists));
      && m.Keys <= {CodeProperty, NameProperty}
      && (CodeProperty in m <==> !MatchesCodePattern(CodePrefix, d.departmentCode) || codeExists(d.departmentCode))
      && (CodeProperty in m ==>
            m[CodeProperty] ==
              (if IsBlank(d.departmentCode) then [CodeEmptyMessage] else [])
              + (if !MatchesCodePattern(CodePrefix, d.departmentCode) then [CodeInvalidMessage] else [])
              + (if codeExists(d.departmentCode) then [CodeExistsMessage] else []))
  {
    var rs := Rules(d, codeExists);
    PropertiesDistinct(d, codeExists);
    BlankFailsCodePattern(CodePrefix, d.departmentCode);
    assert Properties(rs) == {CodeProperty, NameProperty} by {
      assert rs[0].property == CodeProperty && rs[1].property == NameProperty;
    }
    ChainMessages(d, codeExists);
    GroupedRules(rs, 0);
  }

  lemma NameEntry(d: Department, codeExists: string -> bool)
    ensures var m := ExtractErrors(Validate(d, codeExists));
      && (NameProperty in m <==> IsBlank(d.departmentName))
      && (NameProperty in m ==> m[NameProperty] == [NameEmptyMessage])
  {
    var rs := Rules(d, codeExists);
    PropertiesDistinct(d, codeExists);
    ChainMessages(d, codeExists);
    GroupedRules(rs, 1);
  }

  /** A stored code is reported as already existing, whatever else is wrong. */
  lemma StoredCodeRejected(d: Department, codeExists: string -> bool)
    requires codeExists(d.departmentCode)
    ensures var m := ExtractErrors(Validate(d, codeExists));
      CodeProperty in m && CodeExistsMessage in m[CodeProperty]
  {
    GroupedErrors(d, codeExists);
  }
}
