/** Properties of the role allow-list decision: what each branch answers,
    what the scan decides, which collaborator calls are made, and that the
    answer depends on nothing but those calls. */
module RoleValidationProperties {
  import opened RoleValidation

  /** The error a collaborator call surfaces, as the validator passes it on:
      namespace and decode failures unchanged, ARN failures wrapped with the
      role name. None when the call succeeds. */
  function CallFailure(c: Call, getArn: ArnGetter, nsGet: NamespaceGetter, unmarshal: Unmarshal): (r: Option<Error>) {
    match c
    case GetNamespace(n) => if nsGet(n).Fail? then Some(nsGet(n).error) else None
    case GetARN(r) => if getArn(r).Fail? then Some(ResolveErr(r, getArn(r).error)) else None
    case DecodeAnnotation(a) => if unmarshal(a).Fail? then Some(unmarshal(a).error) else None
  }

  /** Two sets of collaborators answer the call c alike. */
  predicate AgreeOn(c: Call, getArn: ArnGetter, nsGet: NamespaceGetter, unmarshal: Unmarshal,
                    getArn': ArnGetter, nsGet': NamespaceGetter, unmarshal': Unmarshal) {
    match c
    case GetNamespace(n) => nsGet(n) == nsGet'(n)
    case GetARN(r) => getArn(r) == getArn'(r)
    case DecodeAnnotation(a) => unmarshal(a) == unmarshal'(a)
  }

  // ---------------------------------------------------------------------
  // The branches of IsWhitelisted and isRoleAllowed
  // ---------------------------------------------------------------------

  /** An empty role is allowed whatever the namespace holds, and no
      collaborator is called. */
  lemma EmptyRoleAllowed(getArn: ArnGetter, nsGet: NamespaceGetter, unmarshal: Unmarshal, namespace: string)
    ensures Whitelisted(getArn, nsGet, unmarshal, "", namespace) == Outcome(true, None)
    ensures Calls(getArn, nsGet, unmarshal, "", namespace) == []
  {
  }

  /** A failed namespace lookup is returned unchanged, with a deny, and
      nothing else is called. */
  lemma NamespaceFailurePropagated(getArn: ArnGetter, nsGet: NamespaceGetter, unmarshal: Unmarshal,
                                   role: string, namespace: string)
    requires role != "" && nsGet(namespace).Fail?
    ensures Whitelisted(getArn, nsGet, unmarshal, role, namespace) == Outcome(false, Some(nsGet(namespace).error))
    ensures Calls(getArn, nsGet, unmarshal, role, namespace) == [GetNamespace(namespace)]
  {
  }

  /** A namespace without the allow-list annotation denies a non-empty role,
      and this is not an error. */
  lemma MissingAnnotationDenies(getArn: ArnGetter, nsGet: NamespaceGetter, unmarshal: Unmarshal,
                                role: string, namespace: string)
    requires role != "" && nsGet(namespace).Ok?
    requires AnnotationName !in nsGet(namespace).value.annotations
    ensures Whitelisted(getArn, nsGet, unmarshal, role, namespace) == Outcome(false, None)
    ensures Calls(getArn, nsGet, unmarshal, role, namespace) == [GetNamespace(namespace)]
  {
  }

  /** A failed ARN lookup of the requested role is reported wrapped with the
      role's name, whatever the annotation holds: the annotation is not
      decoded and no allow-list entry is looked up. */
  lemma RoleArnFailureWins(getArn: ArnGetter, nsGet: NamespaceGetter, unmarshal: Unmarshal,
                           role: string, namespace: string)
    requires role != "" && nsGet(namespace).Ok?
    requires AnnotationName in nsGet(namespace).value.annotations
    requires getArn(role).Fail?
    ensures Whitelisted(getArn, nsGet, unmarshal, role, namespace)
         == Outcome(false, Some(ResolveErr(role, getArn(role).error)))
    ensures Calls(getArn, nsGet, unmarshal, role, namespace) == [GetNamespace(namespace), GetARN(role)]
  {
  }

  /** Once the requested role resolves, an annotation that does not decode
      is reported with the decoder's own error, and no entry is looked up. */
  lemma DecodeFailurePropagated(getArn: ArnGetter, nsGet: NamespaceGetter, unmarshal: Unmarshal,
                                role: string, namespace: string)
    requires role != "" && nsGet(namespace).Ok?
    requires AnnotationName in nsGet(namespace).value.annotations
    requires getArn(role).Ok?
    requires unmarshal(nsGet(namespace).value.annotations[AnnotationName]).Fail?
    ensures var annotation := nsGet(namespace).value.annotations[AnnotationName];
      Whitelisted(getArn, nsGet, unmarshal, role, namespace) == Outcome(false, Some(unmarshal(annotation).error))
      && Calls(getArn, nsGet, unmarshal, role, namespace)
         == [GetNamespace(namespace), GetARN(role), DecodeAnnotation(annotation)]
  {
  }

  /** An annotation that decodes to the empty list denies, without error. */
  lemma EmptyAllowListDenies(getArn: ArnGetter, nsGet: NamespaceGetter, unmarshal: Unmarshal,
                             role: string, namespace: string)
    requires role != "" && nsGet(namespace).Ok?
    requires AnnotationName in nsGet(namespace).value.annotations
    requires getArn(role).Ok?
    requires unmarshal(nsGet(namespace).value.annotations[AnnotationName]) == Ok([])
    ensures Whitelisted(getArn, nsGet, unmarshal, role, namespace) == Outcome(false, None)
  {
  }

  // ---------------------------------------------------------------------
  // The scan over the allow-list
  // ---------------------------------------------------------------------

  /** When every entry resolves, the scan reports no error and allows
      exactly when some entry's ARN equals the requested role's ARN. */
  lemma {:induction false} ScanMatchesIffSomeArnEqual(getArn: ArnGetter, roleArn: string, allowedRoles: seq<string>)
    requires forall i :: 0 <= i < |allowedRoles| ==> getArn(allowedRoles[i]).Ok?
    ensures ScanAllowList(getArn, roleArn, allowedRoles)
         == Outcome(exists i :: 0 <= i < |allowedRoles| && getArn(allowedRoles[i]).value == roleArn, None)
    decreases |allowedRoles|
  {
    if allowedRoles != [] {
      var rest := allowedRoles[1..];
      ScanMatchesIffSomeArnEqual(getArn, roleArn, rest);
      if getArn(allowedRoles[0]).value != roleArn {
        var e1 := exists i :: 0 <= i < |allowedRoles| && getArn(allowedRoles[i]).value == roleArn;
        var e2 := exists i :: 0 <= i < |rest| && getArn(rest[i]).value == roleArn;
        if e1 {
          var i :| 0 <= i < |allowedRoles| && getArn(allowedRoles[i]).value == roleArn;
          assert rest[i - 1] == allowedRoles[i];
        }
        if e2 {
          var i :| 0 <= i < |rest| && getArn(rest[i]).value == roleArn;
          assert allowedRoles[i + 1] == rest[i];
        }
        assert e1 == e2;
      }
    }
  }

  /** The first entry whose ARN equals roleArn, after entries that all
      resolved to other ARNs, allows; it is the last entry looked up. */
  lemma {:induction false} FirstMatchAllows(getArn: ArnGetter, roleArn: string, allowedRoles: seq<string>, k: nat)
    requires k < |allowedRoles| && getArn(allowedRoles[k]) == Ok(roleArn)
    requires forall j :: 0 <= j < k ==> getArn(allowedRoles[j]).Ok? && getArn(allowedRoles[j]).value != roleArn
    ensures ScanAllowList(getArn, roleArn, allowedRoles) == Outcome(true, None)
    ensures ScanResolved(getArn, roleArn, allowedRoles) == allowedRoles[..k + 1]
    decreases k
  {
    if k > 0 {
      var rest := allowedRoles[1..];
      assert forall j :: 0 <= j < k - 1 ==> rest[j] == allowedRoles[j + 1];
      FirstMatchAllows(getArn, roleArn, rest, k - 1);
      assert [allowedRoles[0]] + rest[..k] == allowedRoles[..k + 1];
    }
  }

  /** A failed lookup of entry k, when no earlier entry matched, is
      reported wrapped with that entry's name; it is the last entry looked up. */
  lemma {:induction false} FirstFailureReported(getArn: ArnGetter, roleArn: string, allowedRoles: seq<string>, k: nat)
    requires k < |allowedRoles| && getArn(allowedRoles[k]).Fail?
    requires forall j :: 0 <= j < k ==> getArn(allowedRoles[j]).Ok? && getArn(allowedRoles[j]).value != roleArn
    ensures ScanAllowList(getArn, roleArn, allowedRoles)
         == Outcome(false, Some(ResolveErr(allowedRoles[k], getArn(allowedRoles[k]).error)))
    ensures ScanResolved(getArn, roleArn, allowedRoles) == allowedRoles[..k + 1]
    decreases k
  {
    if k > 0 {
      var rest := allowedRoles[1..];
      assert forall j :: 0 <= j < k - 1 ==> rest[j] == allowedRoles[j + 1];
      FirstFailureReported(getArn, roleArn, rest, k - 1);
      assert [allowedRoles[0]] + rest[..k] == allowedRoles[..k + 1];
    }
  }

  /** The entries the scan looks up are a prefix of the allow-list, every
      one but the last resolved to a different ARN, and the outcome is
      decided by the last one alone: its failure, its match, or a deny when
      the list ran out. */
  lemma {:induction false} ScanStopsAtFirstFailureOrMatch(getArn: ArnGetter, roleArn: string, allowedRoles: seq<string>)
    ensures var names := ScanResolved(getArn, roleArn, allowedRoles);
      var r := ScanAllowList(getArn, roleArn, allowedRoles);
      && |names| <= |allowedRoles| && names == allowedRoles[..|names|]
      && (names == [] <==> allowedRoles == [])
      && (forall j :: 0 <= j < |names| - 1 ==> getArn(names[j]).Ok? && getArn(names[j]).value != roleArn)
      && (names != [] ==>
            var last := names[|names| - 1];
            && (r.allowed <==> getArn(last) == Ok(roleArn))
            && (r.err == if getArn(last).Fail? then Some(ResolveErr(last, getArn(last).error)) else None)
            && (|names| < |allowedRoles| ==> getArn(last).Fail? || getArn(last) == Ok(roleArn)))
      && (names == [] ==> r == Outcome(false, None))
    decreases |allowedRoles|
  {
    if allowedRoles != [] && getArn(allowedRoles[0]).Ok? && getArn(allowedRoles[0]).value != roleArn {
      var rest := allowedRoles[1..];
      ScanStopsAtFirstFailureOrMatch(getArn, roleArn, rest);
      var tail := ScanResolved(getArn, roleArn, rest);
      var names := ScanResolved(getArn, roleArn, allowedRoles);
      assert names == [allowedRoles[0]] + tail;
      assert names == allowedRoles[..|names|] by {
        assert tail == rest[..|tail|];
      }
      if tail == [] {
        assert rest == [];
      } else {
        assert names[|names| - 1] == tail[|tail| - 1];
      }
      forall j | 0 <= j < |names| - 1
        ensures getArn(names[j]).Ok? && getArn(names[j]).value != roleArn
      {
        if j > 0 { assert names[j] == tail[j - 1]; }
      }
    }
  }

  // ---------------------------------------------------------------------
  // The whole decision: no error swallowed, matching on ARNs
  // ---------------------------------------------------------------------

  /** With every lookup succeeding, a non-empty role is allowed exactly when
      some allow-list entry resolves to the same ARN as the role. Two names
      that resolve to one ARN are therefore the same role. */
  lemma {:induction false} AllowedIffSomeEntrySameArn(getArn: ArnGetter, nsGet: NamespaceGetter, unmarshal: Unmarshal,
                                                      role: string, namespace: string)
    requires role != "" && nsGet(namespace).Ok?
    requires AnnotationName in nsGet(namespace).value.annotations
    requires getArn(role).Ok?
    requires unmarshal(nsGet(namespace).value.annotations[AnnotationName]).Ok?
    requires var allowedRoles := unmarshal(nsGet(namespace).value.annotations[AnnotationName]).value;
      forall i :: 0 <= i < |allowedRoles| ==> getArn(allowedRoles[i]).Ok?
    ensures var allowedRoles := unmarshal(nsGet(namespace).value.annotations[AnnotationName]).value;
      Whitelisted(getArn, nsGet, unmarshal, role, namespace)
      == Outcome(exists i :: 0 <= i < |allowedRoles| && getArn(allowedRoles[i]).value == getArn(role).value, None)
  {
    var allowedRoles := unmarshal(nsGet(namespace).value.annotations[AnnotationName]).value;
    ScanMatchesIffSomeArnEqual(getArn, getArn(role).value, allowedRoles);
  }

  /** Below the namespace lookup: the calls of RoleAllowed stop at the
      first one that fails, and its error is that failure. RoleAllowed makes
      no namespace lookup, so the statement holds for every nsGet; the
      parameter is there only because CallFailure judges calls of all three
      kinds. */
  lemma {:induction false} RoleAllowedStopsAtFailure(getArn: ArnGetter, nsGet: NamespaceGetter, unmarshal: Unmarshal,
                                                     role: string, annotation: string)
    ensures var calls := RoleAllowedCalls(getArn, unmarshal, role, annotation);
      && calls != []
      && (forall j :: 0 <= j < |calls| - 1 ==> CallFailure(calls[j], getArn, nsGet, unmarshal) == None)
      && RoleAllowed(getArn, unmarshal, role, annotation).err
         == CallFailure(calls[|calls| - 1], getArn, nsGet, unmarshal)
  {
    if getArn(role).Ok? && unmarshal(annotation).Ok? {
      var roleArn := getArn(role).value;
      var allowedRoles := unmarshal(annotation).value;
      ScanStopsAtFirstFailureOrMatch(getArn, roleArn, allowedRoles);
      var names := ScanResolved(getArn, roleArn, allowedRoles);
      var calls := RoleAllowedCalls(getArn, unmarshal, role, annotation);
      assert calls == [GetARN(role), DecodeAnnotation(annotation)] + seq(|names|, i requires 0 <= i < |names| => GetARN(names[i]));
      forall j | 0 <= j < |calls| - 1
        ensures CallFailure(calls[j], getArn, nsGet, unmarshal) == None
      {
        if j >= 2 { assert calls[j] == GetARN(names[j - 2]); }
      }
      if names != [] {
        assert calls[|calls| - 1] == GetARN(names[|names| - 1]);
      }
    }
  }

  /** The decision stops at the first collaborator call that fails and
      surfaces exactly that failure (ARN failures wrapped with the role
      name); when no call fails there is no error. */
  lemma {:induction false} NoErrorSwallowed(getArn: ArnGetter, nsGet: NamespaceGetter, unmarshal: Unmarshal,
                                            role: string, namespace: string)
    ensures var calls := Calls(getArn, nsGet, unmarshal, role, namespace);
      var r := Whitelisted(getArn, nsGet, unmarshal, role, namespace);
      && (forall j :: 0 <= j < |calls| - 1 ==> CallFailure(calls[j], getArn, nsGet, unmarshal) == None)
      && r.err == (if calls == [] then None else CallFailure(calls[|calls| - 1], getArn, nsGet, unmarshal))
  {
    if role != "" && nsGet(namespace).Ok? && AnnotationName in nsGet(namespace).value.annotations {
      var annotation := nsGet(namespace).value.annotations[AnnotationName];
      RoleAllowedStopsAtFailure(getArn, nsGet, unmarshal, role, annotation);
      var inner := RoleAllowedCalls(getArn, unmarshal, role, annotation);
      var calls := Calls(getArn, nsGet, unmarshal, role, namespace);
      assert calls == [GetNamespace(namespace)] + inner;
      forall j | 0 <= j < |calls| - 1
        ensures CallFailure(calls[j], getArn, nsGet, unmarshal) == None
      {
        if j >= 1 { assert calls[j] == inner[j - 1]; }
      }
      assert calls[|calls| - 1] == inner[|inner| - 1];
    }
  }

  // ---------------------------------------------------------------------
  // Only the traced calls matter
  // ---------------------------------------------------------------------

  /** Scans under two ARN lookups that agree on the entries the first scan
      looks up give the same outcome and look up the same entries. */
  lemma {:induction false} ScanDependsOnlyOnResolved(getArn: ArnGetter, getArn': ArnGetter,
                                                     roleArn: string, allowedRoles: seq<string>)
    requires forall j :: 0 <= j < |ScanResolved(getArn, roleArn, allowedRoles)| ==>
      var name := ScanResolved(getArn, roleArn, allowedRoles)[j]; getArn(name) == getArn'(name)
    ensures ScanAllowList(getArn, roleArn, allowedRoles) == ScanAllowList(getArn', roleArn, allowedRoles)
    ensures ScanResolved(getArn, roleArn, allowedRoles) == ScanResolved(getArn', roleArn, allowedRoles)
    decreases |allowedRoles|
  {
    if allowedRoles != [] {
      var names := ScanResolved(getArn, roleArn, allowedRoles);
      assert names[0] == allowedRoles[0];
      if getArn(allowedRoles[0]).Ok? && getArn(allowedRoles[0]).value != roleArn {
        var rest := allowedRoles[1..];
        var tail := ScanResolved(getArn, roleArn, rest);
        assert names == [allowedRoles[0]] + tail;
        forall j | 0 <= j < |tail| ensures getArn(tail[j]) == getArn'(tail[j]) {
          assert tail[j] == names[j + 1];
        }
        ScanDependsOnlyOnResolved(getArn, getArn', roleArn, rest);
      }
    }
  }

  /** Collaborators that answer every traced call alike give the same
      outcome and make the same calls: the decision consults nothing but
      its trace, so an empty role consults nothing, a failed role lookup
      never decodes, and entries after the first match are never looked up. */
  lemma {:induction false} OnlyTracedCallsMatter(getArn: ArnGetter, nsGet: NamespaceGetter, unmarshal: Unmarshal,
                                                 getArn': ArnGetter, nsGet': NamespaceGetter, unmarshal': Unmarshal,
                                                 role: string, namespace: string)
    requires forall j :: 0 <= j < |Calls(getArn, nsGet, unmarshal, role, namespace)| ==>
      AgreeOn(Calls(getArn, nsGet, unmarshal, role, namespace)[j], getArn, nsGet, unmarshal, getArn', nsGet', unmarshal')
    ensures Whitelisted(getArn, nsGet, unmarshal, role, namespace) == Whitelisted(getArn', nsGet', unmarshal', role, namespace)
    ensures Calls(getArn, nsGet, unmarshal, role, namespace) == Calls(getArn', nsGet', unmarshal', role, namespace)
  {
    var calls := Calls(getArn, nsGet, unmarshal, role, namespace);
    if role != "" {
      assert calls[0] == GetNamespace(namespace);
      if nsGet(namespace).Ok? && AnnotationName in nsGet(namespace).value.annotations {
        var annotation := nsGet(namespace).value.annotations[AnnotationName];
        assert calls[1] == GetARN(role);
        if getArn(role).Ok? {
          assert calls[2] == DecodeAnnotation(annotation);
          if unmarshal(annotation).Ok? {
            var roleArn := getArn(role).value;
            var allowedRoles := unmarshal(annotation).value;
            var names := ScanResolved(getArn, roleArn, allowedRoles);
            forall j | 0 <= j < |names| ensures getArn(names[j]) == getArn'(names[j]) {
              assert calls[j + 3] == GetARN(names[j]);
            }
            ScanDependsOnlyOnResolved(getArn, getArn', roleArn, allowedRoles);
          }
        }
      }
    }
  }

  // ---------------------------------------------------------------------
  // A worked example: aliases resolve to one ARN
  // ---------------------------------------------------------------------

  /** With allow-list ["roleA", "roleB"], roleA at arn:1 and roleB at arn:2:
      roleC, an alias of arn:2, is allowed; roleD at arn:3 is denied. */
  lemma AliasExample(getArn: ArnGetter, nsGet: NamespaceGetter, unmarshal: Unmarshal,
                     namespace: string, annotation: string)
    requires nsGet(namespace) == Ok(Namespace(map[AnnotationName := annotation]))
    requires unmarshal(annotation) == Ok(["roleA", "roleB"])
    requires getArn("roleA") == Ok("arn:1") && getArn("roleB") == Ok("arn:2")
    requires getArn("roleC") == Ok("arn:2") && getArn("roleD") == Ok("arn:3")
    ensures Whitelisted(getArn, nsGet, unmarshal, "roleC", namespace) == Outcome(true, None)
    ensures Whitelisted(getArn, nsGet, unmarshal, "roleD", namespace) == Outcome(false, None)
  {
    var list := ["roleA", "roleB"];
    assert list[1..][1..] == [];
  }

  // ---------------------------------------------------------------------
  // The validator object
  // ---------------------------------------------------------------------

  /** A validator answers a role the same way on every call: its
      collaborators are const fields, and both calls equal the same
      function of them. */
  method AnswersAreRepeatable(v: RoleValidator, role: string, namespace: string, unmarshal: Unmarshal)
    returns (allowed1: bool, err1: Option<Error>, allowed2: bool, err2: Option<Error>)
    ensures allowed1 == allowed2 && err1 == err2
  {
    allowed1, err1 := v.IsWhitelisted(role, namespace, unmarshal);
    allowed2, err2 := v.IsWhitelisted(role, namespace, unmarshal);
  }
}
