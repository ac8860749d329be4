/** The Kubernetes vocabulary the models share: 32-bit port numbers, namespace labels and label
    selectors, with the matching rules of k8s.io/apimachinery label selectors.
 */
module Kube {
  const MIN_INT32 := -0x8000_0000
  const MAX_INT32 := 0x7fff_ffff

  /** Go's int32: arithmetic on it wraps around, see Wrap. */
  type Int32 = x: int | MIN_INT32 <= x <= MAX_INT32

  /** The int32 that Go's addition or subtraction of one leaves behind. */
  function Wrap(x: int): Int32
    requires MIN_INT32 - 1 <= x <= MAX_INT32 + 1
  {
    if x > MAX_INT32 then MIN_INT32 else if x < MIN_INT32 then MAX_INT32 else x
  }

  type Labels = map<string, string>

  datatype Operator = In | NotIn | Exists | DoesNotExist

  datatype Requirement = Requirement(key: string, operator: Operator, values: seq<string>)

  datatype LabelSelector = LabelSelector(matchLabels: Labels, matchExpressions: seq<Requirement>)

  /** The empty selector: it matches every namespace. */
  const EVERYTHING := LabelSelector(map[], [])

  predicate RequirementMatches(r: Requirement, labels: Labels) {
    match r.operator
    case In => r.key in labels && labels[r.key] in r.values
    case NotIn => r.key !in labels || labels[r.key] !in r.values
    case Exists => r.key in labels
    case DoesNotExist => r.key !in labels
  }

  predicate SelectorMatches(selector: LabelSelector, labels: Labels) {
    && (forall k | k in selector.matchLabels :: k in labels && labels[k] == selector.matchLabels[k])
    && (forall r | r in selector.matchExpressions :: RequirementMatches(r, labels))
  }

  /** The operators come in opposite pairs, and a requirement looks at no label but its own. */
  lemma OperatorsOppose(key: string, values: seq<string>, labels: Labels, others: Labels)
    requires key in others <==> key in labels
    requires key in labels ==> others[key] == labels[key]
    ensures RequirementMatches(Requirement(key, NotIn, values), labels) <==> !RequirementMatches(Requirement(key, In, values), others)
    ensures RequirementMatches(Requirement(key, DoesNotExist, values), labels) <==>
            !RequirementMatches(Requirement(key, Exists, values), others)
    ensures RequirementMatches(Requirement(key, In, values), labels) ==> RequirementMatches(Requirement(key, Exists, values), others)
  {
  }
}
