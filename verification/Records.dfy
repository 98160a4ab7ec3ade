/** The records that the services exchange and the persistence store keeps. */
module Records {
  /** A value of Go's type any, as far as conditions tell values apart. */
  datatype Any = Nil | Text(s: string) | Number(x: real) | List(items: seq<Any>) | Other(id: int)

  datatype Condition = Condition(attribute: string, operator: string, value: Any)

  datatype Rule = Rule(conditions: seq<Condition>, rolloutPercentage: int, variant: string)

  datatype EvalResult = EvalResult(enabled: bool, variant: string)

  const SEMANTICS_RANDOM := "random"
  const SEMANTICS_PERSISTENT := "persistent"

  datatype FlagDefinition = FlagDefinition(
    key: string,
    flagType: string,
    semantics: string,
    enabled: bool,
    description: string,
    rules: seq<Rule>,
    defaultResult: EvalResult,
    createdBy: string,
    updatedBy: string,
    createdAt: int,
    updatedAt: int)

  datatype Assignment = Assignment(
    subjectId: string,
    flagKey: string,
    enabled: bool,
    variant: string,
    assignedAt: int,
    expiresAt: int)

  datatype Variant = Variant(key: string, description: string)
  datatype Allocation = Allocation(variantKey: string, percentage: int)

  datatype Experiment = Experiment(
    key: string,
    name: string,
    status: string,
    stickyAssignment: bool,
    variants: seq<Variant>,
    allocation: seq<Allocation>,
    createdAt: int,
    updatedAt: int)

  datatype APIKey = APIKey(
    id: string,
    keyHash: string,
    keyPrefix: string,
    scope: string,
    name: string,
    createdBy: string,
    createdAt: int,
    revokedAt: int)
}
