/** A model of the namespace role allow-list decision of kube-secret-syncer's
    role validator: may a requested IAM role be used inside a Kubernetes
    namespace?

    The two services the validator consults (the IAM ARN lookup and the
    namespace cache) and the JSON decoder are modelled as total functions that
    either succeed with a value or fail with an Error. The decision itself is
    given twice: as pure specification functions (Whitelisted, RoleAllowed,
    ScanAllowList), and as the methods of the class RoleValidator, which follow
    the program step by step and are proved equal to those functions. */
module RoleValidation {

  /** The namespace annotation whose value is the JSON allow-list of roles. */
  const AnnotationName: string := "iam.amazonaws.com/allowed-roles"

  /** An error value. Errors raised by a collaborator are opaque causes;
      the validator wraps a failed ARN lookup with the name of the role it
      failed for, in place of a formatted message. */
  datatype Error =
    | Cause(message: string)
    | ResolveErr(roleName: string, cause: Error)

  datatype Option<T> = None | Some(value: T)

  /** What a collaborator call returns: a value, or an error. */
  datatype Result<T> = Ok(value: T) | Fail(error: Error)

  /** The part of a Kubernetes namespace the validator reads. */
  datatype Namespace = Namespace(annotations: map<string, string>)

  /** The validator's (bool, error) answer; err == None stands for a nil error. */
  datatype Outcome = Outcome(allowed: bool, err: Option<Error>)

  /** The IAM lookup of a role's ARN. */
  type ArnGetter = string -> Result<string>
  /** The namespace cache, by namespace name. */
  type NamespaceGetter = string -> Result<Namespace>
  /** The JSON decoding of an annotation value into a list of strings. */
  type Unmarshal = string -> Result<seq<string>>

  /** Go's answers never pair "allowed" with an error. */
  predicate WellFormed(o: Outcome) {
    o.allowed ==> o.err == None
  }

  /** The scan over the decoded allow-list, in its order: the first entry
      whose ARN fails to resolve ends the scan with that failure, wrapped
      with the entry's name; the first entry whose ARN equals roleArn ends
      it with an allow; an exhausted list denies. */
  function ScanAllowList(getArn: ArnGetter, roleArn: string, allowedRoles: seq<string>): (r: Outcome)
    ensures WellFormed(r)
    ensures r.err.Some? ==> r.err.value.ResolveErr? && r.err.value.roleName in allowedRoles
    ensures r.allowed ==> exists i :: 0 <= i < |allowedRoles| && getArn(allowedRoles[i]) == Ok(roleArn)
    decreases |allowedRoles|
  {
    if allowedRoles == [] then
      Outcome(false, None)
    else
      match getArn(allowedRoles[0])
      case Fail(e) => Outcome(false, Some(ResolveErr(allowedRoles[0], e)))
      case Ok(arn) =>
        if roleArn == arn then Outcome(true, None)
        else
          var rest := ScanAllowList(getArn, roleArn, allowedRoles[1..]);
          assert rest.allowed ==> exists i :: 1 <= i < |allowedRoles| && getArn(allowedRoles[i]) == Ok(roleArn) by {
            if rest.allowed {
              var i :| 0 <= i < |allowedRoles[1..]| && getArn(allowedRoles[1..][i]) == Ok(roleArn);
              assert allowedRoles[1..][i] == allowedRoles[i + 1];
            }
          }
          rest
  }

  /** The decision once the namespace's annotation has been found: resolve
      the requested role's ARN first, then decode the annotation, then scan. */
  function RoleAllowed(getArn: ArnGetter, unmarshal: Unmarshal, role: string, annotation: string): (r: Outcome)
    ensures WellFormed(r)
  {
    match getArn(role)
    case Fail(e) => Outcome(false, Some(ResolveErr(role, e)))
    case Ok(roleArn) =>
      match unmarshal(annotation)
      case Fail(e) => Outcome(false, Some(e))
      case Ok(allowedRoles) => ScanAllowList(getArn, roleArn, allowedRoles)
  }

  /** The whole decision for a requested role in a namespace. An empty role
      is allowed outright; otherwise the namespace is fetched, a missing
      annotation denies, and a present one is decided by RoleAllowed. */
  function Whitelisted(getArn: ArnGetter, nsGet: NamespaceGetter, unmarshal: Unmarshal,
                       role: string, namespace: string): (r: Outcome)
    ensures WellFormed(r)
  {
    if role == "" then
      Outcome(true, None)
    else
      match nsGet(namespace)
      case Fail(e) => Outcome(false, Some(e))
      case Ok(ns) =>
        if AnnotationName !in ns.annotations then Outcome(false, None)
        else RoleAllowed(getArn, unmarshal, role, ns.annotations[AnnotationName])
  }

  /** One call the decision makes into a collaborator. */
  datatype Call =
    | GetNamespace(name: string)
    | GetARN(roleName: string)
    | DecodeAnnotation(annotation: string)

  /** The allow-list entries whose ARN the scan looks up, in order: a
      prefix of the list, empty only for an empty list. */
  ghost function ScanResolved(getArn: ArnGetter, roleArn: string, allowedRoles: seq<string>): (r: seq<string>)
    ensures |r| <= |allowedRoles| && r == allowedRoles[..|r|]
    ensures r == [] <==> allowedRoles == []
    decreases |allowedRoles|
  {
    if allowedRoles == [] then []
    else
      var tail :=
        match getArn(allowedRoles[0])
        case Fail(_) => []
        case Ok(arn) => if roleArn == arn then [] else ScanResolved(getArn, roleArn, allowedRoles[1..]);
      assert [allowedRoles[0]] + tail == allowedRoles[..|tail| + 1] by {
        assert tail == allowedRoles[1..][..|tail|];
      }
      [allowedRoles[0]] + tail
  }

  /** The collaborator calls RoleAllowed makes, in order: the role's ARN
      lookup always comes first, and the annotation is decoded, as the
      second call, exactly when that lookup succeeds; entries are looked up
      only after a successful decode, and every call after the decode is
      the ARN lookup of a decoded entry. */
  ghost function RoleAllowedCalls(getArn: ArnGetter, unmarshal: Unmarshal, role: string, annotation: string): (r: seq<Call>)
    ensures r != [] && r[0] == GetARN(role)
    ensures |r| > 1 <==> getArn(role).Ok?
    ensures |r| > 1 ==> r[1] == DecodeAnnotation(annotation)
    ensures |r| > 2 ==> unmarshal(annotation).Ok?
    ensures forall j :: 2 <= j < |r| ==> r[j].GetARN? && r[j].roleName in unmarshal(annotation).value
  {
    [GetARN(role)] +
    match getArn(role)
    case Fail(_) => []
    case Ok(roleArn) =>
      [DecodeAnnotation(annotation)] +
      match unmarshal(annotation)
      case Fail(_) => []
      case Ok(allowedRoles) =>
        var names := ScanResolved(getArn, roleArn, allowedRoles);
        seq(|names|, i requires 0 <= i < |names| => GetARN(names[i]))
  }

  /** The collaborator calls Whitelisted makes, in order: none for the empty
      role; otherwise the namespace lookup first, and anything after it only
      when the namespace was found and carries the allow-list annotation,
      starting with the role's ARN lookup. */
  ghost function Calls(getArn: ArnGetter, nsGet: NamespaceGetter, unmarshal: Unmarshal,
                       role: string, namespace: string): (r: seq<Call>)
    ensures r == [] <==> role == ""
    ensures r != [] ==> r[0] == GetNamespace(namespace)
    ensures |r| > 1 <==> role != "" && nsGet(namespace).Ok? && AnnotationName in nsGet(namespace).value.annotations
    ensures |r| > 1 ==> r[1] == GetARN(role)
  {
    if role == "" then []
    else
      [GetNamespace(namespace)] +
      match nsGet(namespace)
      case Fail(_) => []
      case Ok(ns) =>
        if AnnotationName !in ns.annotations then []
        else RoleAllowedCalls(getArn, unmarshal, role, ns.annotations[AnnotationName])
  }

  /** The validator. Its two collaborators are fixed when it is built and
      never change afterwards, which Dafny's const fields make explicit. */
  class RoleValidator {
    const arnGetter: ArnGetter
    const nsCache: NamespaceGetter

    constructor (getter: ArnGetter, nsCache: NamespaceGetter)
      ensures this.arnGetter == getter && this.nsCache == nsCache
    {
      this.arnGetter := getter;
      this.nsCache := nsCache;
    }

    /** May role be used in namespace? unmarshal is the JSON decoder. */
    method IsWhitelisted(role: string, namespace: string, unmarshal: Unmarshal) returns (allowed: bool, err: Option<Error>)
      ensures Outcome(allowed, err) == Whitelisted(arnGetter, nsCache, unmarshal, role, namespace)
    {
      if role == "" {
        return true, None;
      }
      var ns := nsCache(namespace);
      if ns.Fail? {
        return false, Some(ns.error);
      }
      if AnnotationName !in ns.value.annotations {
        return false, None;
      }
      allowed, err := IsRoleAllowed(role, ns.value.annotations[AnnotationName], unmarshal);
    }

    /** The decision against one annotation value, scanning the decoded
        allow-list with an early exit on the first failure or match. */
    method IsRoleAllowed(role: string, annotation: string, unmarshal: Unmarshal) returns (allowed: bool, err: Option<Error>)
      ensures Outcome(allowed, err) == RoleAllowed(arnGetter, unmarshal, role, annotation)
    {
      var roleArn := arnGetter(role);
      if roleArn.Fail? {
        return false, Some(ResolveErr(role, roleArn.error));
      }
      var decoded := unmarshal(annotation);
      if decoded.Fail? {
        return false, Some(decoded.error);
      }
      var allowedRoles := decoded.value;
      var i := 0;
      while i < |allowedRoles|
        invariant 0 <= i <= |allowedRoles|
        invariant ScanAllowList(arnGetter, roleArn.value, allowedRoles[i..])
               == ScanAllowList(arnGetter, roleArn.value, allowedRoles)
      {
        var allowedRole := allowedRoles[i];
        var allowedRoleArn := arnGetter(allowedRole);
        if allowedRoleArn.Fail? {
          return false, Some(ResolveErr(allowedRole, allowedRoleArn.error));
        }
        if roleArn.value == allowedRoleArn.value {
          return true, None;
        }
        assert allowedRoles[i..][1..] == allowedRoles[i + 1..];
        i := i + 1;
      }
      return false, None;
    }
  }
}
