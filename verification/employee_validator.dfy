/** `EmployeeValidator`: the rules an employee must pass before it is
    stored. Storage (`codeExists`), the e-mail syntax check of
    `EmailAddress()` (`isEmail`) and the clock reading taken when the
    validator is built (`now`) are parameters. */
module EmployeeValidator {
  import opened Wrappers
  import opened Guids
  import opened Models
  import opened ValidationRules
  import opened ValidatorUtils

  const CodeProperty := "EmployeeCode"
  const FullNameProperty := "FullName"
  const EmailProperty := "Email"
  const PhoneNumberProperty := "PhoneNumber"
  const IdentityNumberProperty := "IdentityNumber"
  const DepartmentIdProperty := "DepartmentId"
  const PositionIdProperty := "PositionId"
  const DateOfBirthProperty := "DateOfBirth"
  const IdentityDateProperty := "IdentityDate"
  const CodePrefix := "NV"

  const CodeEmptyMessage := "Mã nhân viên không được phép để trống"
  const CodeInvalidMessage := "Mã nhân viên không hợp lệ"
  const CodeExistsMessage := "Mã nhân viên đã tồn tại trong hệ thống"
  const FullNameEmptyMessage := "Họ tên không được phép để trống"
  const EmailEmptyMessage := "Email không được phép để trống"
  const EmailInvalidMessage := "Email không hợp lệ"
  const PhoneNumberEmptyMessage := "SĐT không được phép để trống"
  const IdentityNumberEmptyMessage := "Số CMTND không được phép để trống"
  const DepartmentIdEmptyMessage := "Phòng ban không được phép để trống"
  const PositionIdEmptyMessage := "Vị trí không được phép để trống"
  const DateOfBirthInvalidMessage := "Ngày sinh không hợp lệ"
  const IdentityDateInvalidMessage := "Ngày cấp CMTND không hợp lệ"

  /** The outcome of every check the validator runs on one employee, as
      booleans that say the check failed. */
  datatype Checks = Checks(
    codeBlank: bool, codeMalformed: bool, codeTaken: bool,
    fullNameBlank: bool, emailBlank: bool, emailMalformed: bool,
    phoneNumberBlank: bool, identityNumberBlank: bool,
    departmentMissing: bool, positionMissing: bool,
    birthNotBefore: bool, identityDateNotBefore: bool)
  {
    /** No check failed. */
    predicate AllPass() {
      && !codeBlank && !codeMalformed && !codeTaken
      && !fullNameBlank && !emailBlank && !emailMalformed
      && !phoneNumberBlank && !identityNumberBlank
      && !departmentMissing && !positionMissing
      && !birthNotBefore && !identityDateNotBefore
    }
  }

  /** The checks on `e`: storage answers `codeExists`, the e-mail syntax
      check answers `isEmail`, the dates are compared with `now`. */
  function Checked(e: Employee, codeExists: string -> bool, isEmail: string -> bool, now: DateTime): Checks {
    Checks(IsBlank(e.employeeCode), !MatchesCodePattern(CodePrefix, e.employeeCode), codeExists(e.employeeCode),
           IsBlank(e.fullName), IsBlank(e.email), !isEmail(e.email),
           IsBlank(e.phoneNumber), IsBlank(e.identityNumber),
           e.departmentId == EmptyGuid, e.positionId == EmptyGuid,
           !AbsentOrBefore(e.dateOfBirth, now), !AbsentOrBefore(e.identityDate, now))
  }

  function CodeRule(c: Checks): Rule {
    Rule(CodeProperty, [ Step(c.codeBlank, CodeEmptyMessage),
                         Step(c.codeMalformed, CodeInvalidMessage),
                         Step(c.codeTaken, CodeExistsMessage) ])
  }

  function EmailRule(c: Checks): Rule {
    Rule(EmailProperty, [ Step(c.emailBlank, EmailEmptyMessage),
                          Step(c.emailMalformed, EmailInvalidMessage) ])
  }

  /** A chain with a single link. */
  function SingleRule(property: string, fails: bool, message: string): Rule {
    Rule(property, [Step(fails, message)])
  }

  /** The nine `RuleFor` chains in declaration order, given the checks'
      outcomes. */
  function RulesOf(c: Checks): seq<Rule> {
    [ CodeRule(c),
      SingleRule(FullNameProperty, c.fullNameBlank, FullNameEmptyMessage),
      EmailRule(c),
      SingleRule(PhoneNumberProperty, c.phoneNumberBlank, PhoneNumberEmptyMessage),
      SingleRule(IdentityNumberProperty, c.identityNumberBlank, IdentityNumberEmptyMessage),
      SingleRule(DepartmentIdProperty, c.departmentMissing, DepartmentIdEmptyMessage),
      SingleRule(PositionIdProperty, c.positionMissing, PositionIdEmptyMessage),
      SingleRule(DateOfBirthProperty, c.birthNotBefore, DateOfBirthInvalidMessage),
      SingleRule(IdentityDateProperty, c.identityDateNotBefore, IdentityDateInvalidMessage) ]
  }

  /** The nine chains run on `e`. */
  function Rules(e: Employee, codeExists: string -> bool, isEmail: string -> bool, now: DateTime): seq<Rule> {
    RulesOf(Checked(e, codeExists, isEmail, now))
  }

  /** The property names of the nine rules. */
  function AllProperties(): set<string> {
    { CodeProperty, FullNameProperty, EmailProperty, PhoneNumberProperty, IdentityNumberProperty,
      DepartmentIdProperty, PositionIdProperty, DateOfBirthProperty, IdentityDateProperty }
  }

  lemma CodeRuleMessages(c: Checks)
    ensures FailedMessages(CodeRule(c).chain) ==
      (if c.codeBlank then [CodeEmptyMessage] else [])
      + (if c.codeMalformed then [CodeInvalidMessage] else [])
      + (if c.codeTaken then [CodeExistsMessage] else [])
  {
    var ch := CodeRule(c).chain;
    FailedMessagesThree(ch[0], ch[1], ch[2]);
  }

  lemma EmailRuleMessages(c: Checks)
    ensures FailedMessages(EmailRule(c).chain) ==
      (if c.emailBlank then [EmailEmptyMessage] else [])
      + (if c.emailMalformed then [EmailInvalidMessage] else [])
  {
    var ch := EmailRule(c).chain;
    FailedMessagesTwo(ch[0], ch[1]);
  }

  lemma SingleRuleMessages(property: string, fails: bool, message: string)
    ensures FailedMessages(SingleRule(property, fails, message).chain) == if fails then [message] else []
  {
    FailedMessagesOne(Step(fails, message));
  }

  lemma RuleProperties(c: Checks)
    ensures var rs := RulesOf(c);
      && Properties(rs) == AllProperties()
      && DistinctProperties(rs)
  {
    var rs := RulesOf(c);
    assert rs[0].property == CodeProperty && rs[1].property == FullNameProperty;
    assert rs[2].property == EmailProperty && rs[3].property == PhoneNumberProperty;
    assert rs[4].property == IdentityNumberProperty && rs[5].property == DepartmentIdProperty;
    assert rs[6].property == PositionIdProperty && rs[7].property == DateOfBirthProperty;
    assert rs[8].property == IdentityDateProperty;
    // names of equal length are told apart by their first letter
    assert CodeProperty[0] != DepartmentIdProperty[0] && CodeProperty[0] != IdentityDateProperty[0];
    assert DepartmentIdProperty[0] != IdentityDateProperty[0];
    assert PhoneNumberProperty[0] != DateOfBirthProperty[0];
  }

  /** The checks behind the `i`-th chain all passed. */
  predicate PassesAt(c: Checks, i: nat) {
    match i
    case 0 => !c.codeBlank && !c.codeMalformed && !c.codeTaken
    case 1 => !c.fullNameBlank
    case 2 => !c.emailBlank && !c.emailMalformed
    case 3 => !c.phoneNumberBlank
    case 4 => !c.identityNumberBlank
    case 5 => !c.departmentMissing
    case 6 => !c.positionMissing
    case 7 => !c.birthNotBefore
    case _ => !c.identityDateNotBefore
  }

  /** The `i`-th chain reports nothing exactly when its checks passed. */
  lemma ChainPasses(c: Checks, i: nat)
    requires i < 9
    ensures FailedMessages(RulesOf(c)[i].chain) == [] <==> PassesAt(c, i)
  {
    var rs := RulesOf(c);
    if i == 0 {
      assert rs[0] == CodeRule(c);
      CodeRuleMessages(c);
    } else if i == 2 {
      assert rs[2] == EmailRule(c);
      EmailRuleMessages(c);
    } else {
      var r := rs[i];
      assert r == SingleRule(r.property, r.chain[0].fails, r.chain[0].message);
      assert r.chain[0].fails == !PassesAt(c, i);
      SingleRuleMessages(r.property, r.chain[0].fails, r.chain[0].message);
    }
  }

  /** Every chain passes exactly when no check failed. */
  lemma RulesPass(c: Checks)
    ensures var rs := RulesOf(c);
      (forall i :: 0 <= i < |rs| ==> FailedMessages(rs[i].chain) == []) <==> c.AllPass()
  {
    var rs := RulesOf(c);
    forall i | 0 <= i < |rs|
      ensures FailedMessages(rs[i].chain) == [] <==> PassesAt(c, i)
    {
      ChainPasses(c, i);
    }
    assert c.AllPass() <==> forall i :: 0 <= i < 9 ==> PassesAt(c, i) by {
      assert (PassesAt(c, 0) && PassesAt(c, 1) && PassesAt(c, 2) && PassesAt(c, 3) && PassesAt(c, 4)
        && PassesAt(c, 5) && PassesAt(c, 6) && PassesAt(c, 7) && PassesAt(c, 8)) <==> c.AllPass();
    }
  }

  /** The failures of every rule, in declaration order. An employee passes
      exactly when its code is "NV" and five digits and not yet stored, the
      four text fields are not blank, the e-mail is well formed, both
      references are non-empty and each date present is before `now`. */
  function Validate(e: Employee, codeExists: string -> bool, isEmail: string -> bool, now: DateTime): (errs: seq<ValidationFailure>)
    ensures errs == [] <==>
      && MatchesCodePattern(CodePrefix, e.employeeCode) && !codeExists(e.employeeCode)
      && !IsBlank(e.fullName)
      && !IsBlank(e.email) && isEmail(e.email)
      && !IsBlank(e.phoneNumber)
      && !IsBlank(e.identityNumber)
      && e.departmentId != EmptyGuid && e.positionId != EmptyGuid
      && AbsentOrBefore(e.dateOfBirth, now) && AbsentOrBefore(e.identityDate, now)
    ensures PropertyNames(errs) <= AllProperties()
  {
    var c := Checked(e, codeExists, isEmail, now);
    BlankFailsCodePattern(CodePrefix, e.employeeCode);
    RulesPass(c);
    RuleProperties(c);
    RunRules(RulesOf(c))
  }

  /** The entry of the `i`-th rule's property after grouping. */
  lemma Entry(e: Employee, codeExists: string -> bool, isEmail: string -> bool, now: DateTime, i: nat)
    requires i < 9
    ensures var rs, m := Rules(e, codeExists, isEmail, now), ExtractErrors(Validate(e, codeExists, isEmail, now));
      && m.Keys <= AllProperties()
      && (rs[i].property in m <==> FailedMessages(rs[i].chain) != [])
      && (rs[i].property in m ==> m[rs[i].property] == FailedMessages(rs[i].chain))
  {
    RuleProperties(Checked(e, codeExists, isEmail, now));
    GroupedRules(Rules(e, codeExists, isEmail, now), i);
  }

  /** The entry of a single-link rule after grouping: its one message,
      exactly when the link fails. */
  lemma SingleEntry(e: Employee, codeExists: string -> bool, isEmail: string -> bool, now: DateTime,
                    i: nat, property: string, fails: bool, message: string)
    requires i < 9 && Rules(e, codeExists, isEmail, now)[i] == SingleRule(property, fails, message)
    ensures var m := ExtractErrors(Validate(e, codeExists, isEmail, now));
      && (property in m <==> fails)
      && (property in m ==> m[property] == [message])
  {
    Entry(e, codeExists, isEmail, now, i);
    SingleRuleMessages(property, fails, message);
  }

  /** The code entry: present unless the code is well formed and unused,
      listing the failed code checks in declaration order. */
  lemma CodeErrors(e: Employee, codeExists: string -> bool, isEmail: string -> bool, now: DateTime)
    ensures var m := ExtractErrors(Validate(e, codeExists, isEmail, now));
      && (CodeProperty in m <==> !MatchesCodePattern(CodePrefix, e.employeeCode) || codeExists(e.employeeCode))
      && (CodeProperty in m ==>
            m[CodeProperty] ==
              (if IsBlank(e.employeeCode) then [CodeEmptyMessage] else [])
              + (if !MatchesCodePattern(CodePrefix, e.employeeCode) then [CodeInvalidMessage] else [])
              + (if codeExists(e.employeeCode) then [CodeExistsMessage] else []))
  {
    var c := Checked(e, codeExists, isEmail, now);
    assert Rules(e, codeExists, isEmail, now)[0] == CodeRule(c);
    Entry(e, codeExists, isEmail, now, 0);
    CodeRuleMessages(c);
    BlankFailsCodePattern(CodePrefix, e.employeeCode);
  }

  /** The e-mail entry: the blank message first, the format message second,
      each reported on its own. */
  lemma EmailErrors(e: Employee, codeExists: string -> bool, isEmail: string -> bool, now: DateTime)
    ensures var m := ExtractErrors(Validate(e, codeExists, isEmail, now));
      && (EmailProperty in m <==> IsBlank(e.email) || !isEmail(e.email))
      && (EmailProperty in m ==>
            m[EmailProperty] ==
              (if IsBlank(e.email) then [EmailEmptyMessage] else [])
              + (if !isEmail(e.email) then [EmailInvalidMessage] else []))
  {
    var c := Checked(e, codeExists, isEmail, now);
    assert Rules(e, codeExists, isEmail, now)[2] == EmailRule(c);
    Entry(e, codeExists, isEmail, now, 2);
    EmailRuleMessages(c);
  }

  /** The full name is reported, with its own message, exactly when blank,
      whatever the other fields hold; so are the phone number and the
      identity number below. */
  lemma FullNameErrors(e: Employee, codeExists: string -> bool, isEmail: string -> bool, now: DateTime)
    ensures var m := ExtractErrors(Validate(e, codeExists, isEmail, now));
      && (FullNameProperty in m <==> IsBlank(e.fullName))
      && (FullNameProperty in m ==> m[FullNameProperty] == [FullNameEmptyMessage])
  {
    SingleEntry(e, codeExists, isEmail, now, 1, FullNameProperty, IsBlank(e.fullName), FullNameEmptyMessage);
  }

  lemma PhoneNumberErrors(e: Employee, codeExists: string -> bool, isEmail: string -> bool, now: DateTime)
    ensures var m := ExtractErrors(Validate(e, codeExists, isEmail, now));
      && (PhoneNumberProperty in m <==> IsBlank(e.phoneNumber))
      && (PhoneNumberProperty in m ==> m[PhoneNumberProperty] == [PhoneNumberEmptyMessage])
  {
    SingleEntry(e, codeExists, isEmail, now, 3, PhoneNumberProperty, IsBlank(e.phoneNumber), PhoneNumberEmptyMessage);
  }

  lemma IdentityNumberErrors(e: Employee, codeExists: string -> bool, isEmail: string -> bool, now: DateTime)
    ensures var m := ExtractErrors(Validate(e, codeExists, isEmail, now));
      && (IdentityNumberProperty in m <==> IsBlank(e.identityNumber))
      && (IdentityNumberProperty in m ==> m[IdentityNumberProperty] == [IdentityNumberEmptyMessage])
  {
    SingleEntry(e, codeExists, isEmail, now, 4, IdentityNumberProperty, IsBlank(e.identityNumber), IdentityNumberEmptyMessage);
  }

  /** The department and position references are reported exactly when they
      are the empty identifier. */
  lemma ReferenceErrors(e: Employee, codeExists: string -> bool, isEmail: string -> bool, now: DateTime)
    ensures var m := ExtractErrors(Validate(e, codeExists, isEmail, now));
      && (DepartmentIdProperty in m <==> e.departmentId == EmptyGuid)
      && (DepartmentIdProperty in m ==> m[DepartmentIdProperty] == [DepartmentIdEmptyMessage])
      && (PositionIdProperty in m <==> e.positionId == EmptyGuid)
      && (PositionIdProperty in m ==> m[PositionIdProperty] == [PositionIdEmptyMessage])
  {
    SingleEntry(e, codeExists, isEmail, now, 5, DepartmentIdProperty, e.departmentId == EmptyGuid, DepartmentIdEmptyMessage);
    SingleEntry(e, codeExists, isEmail, now, 6, PositionIdProperty, e.positionId == EmptyGuid, PositionIdEmptyMessage);
  }

  /** A date is reported exactly when it is present and not strictly before
      `now`, so a date equal to `now` is reported. */
  lemma DateErrors(e: Employee, codeExists: string -> bool, isEmail: string -> bool, now: DateTime)
    ensures var m := ExtractErrors(Validate(e, codeExists, isEmail, now));
      && (DateOfBirthProperty in m <==> e.dateOfBirth.Some? && e.dateOfBirth.value >= now)
      && (DateOfBirthProperty in m ==> m[DateOfBirthProperty] == [DateOfBirthInvalidMessage])
      && (IdentityDateProperty in m <==> e.identityDate.Some? && e.identityDate.value >= now)
      && (IdentityDateProperty in m ==> m[IdentityDateProperty] == [IdentityDateInvalidMessage])
  {
    SingleEntry(e, codeExists, isEmail, now, 7, DateOfBirthProperty, !AbsentOrBefore(e.dateOfBirth, now), DateOfBirthInvalidMessage);
    SingleEntry(e, codeExists, isEmail, now, 8, IdentityDateProperty, !AbsentOrBefore(e.identityDate, now), IdentityDateInvalidMessage);
  }

  /** The references are not looked up: any two non-empty department and
      position identifiers, stored or not, give the same failures. */
  lemma ReferencesNotLookedUp(e: Employee, codeExists: string -> bool, isEmail: string -> bool, now: DateTime,
                              departmentId: Guid, positionId: Guid)
    requires e.departmentId != EmptyGuid && e.positionId != EmptyGuid
    requires departmentId != EmptyGuid && positionId != EmptyGuid
    ensures Validate(e.(departmentId := departmentId, positionId := positionId), codeExists, isEmail, now)
      == Validate(e, codeExists, isEmail, now)
  {
    var e' := e.(departmentId := departmentId, positionId := positionId);
    assert Rules(e', codeExists, isEmail, now) == Rules(e, codeExists, isEmail, now);
  }

  /** A stored code is reported as already existing, whatever else is wrong. */
  lemma StoredCodeRejected(e: Employee, codeExists: string -> bool, isEmail: string -> bool, now: DateTime)
    requires codeExists(e.employeeCode)
    ensures var m := ExtractErrors(Validate(e, codeExists, isEmail, now));
      CodeProperty in m && CodeExistsMessage in m[CodeProperty]
  {
    CodeErrors(e, codeExists, isEmail, now);
  }
}
