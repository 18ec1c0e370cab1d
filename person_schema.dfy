/** The request body of the person routes and its validators. */
module PersonSchema {
  import opened Outcomes

  datatype Person = Person(id: int, name: string, age: int, role: string)

  /** The field bound `age: int = Field(..., gt=0, le=100)`. */
  function AgeField(v: int): (r: Checked<int>)
    ensures r.Accepted? <==> 0 < v <= 100
    ensures r.Accepted? ==> r.value == v
  {
    if 0 < v && v <= 100 then Accepted(v) else Rejected
  }

  /** `age_must_be_positive`, which only runs on a value the field bound accepted. */
  function AgeMustBePositive(v: int): (r: Checked<int>)
    ensures r.Accepted? <==> 0 <= v
    ensures r.Accepted? ==> r.value == v
  {
    if v < 0 then Rejected else Accepted(v)
  }

  /** Validation of a person body: the field bound first, then the validator. */
  function Validate(p: Person): (r: Checked<Person>)
    ensures r.Accepted? <==> 0 < p.age <= 100
    ensures r.Accepted? ==> r.value == p
  {
    match AgeField(p.age)
    case Rejected => Rejected
    case Accepted(a) =>
      match AgeMustBePositive(a)
      case Rejected => Rejected
      case Accepted(b) => Accepted(p.(age := b))
  }

  /** The validator's `v < 0` test never refuses anything the field bound let through. */
  lemma ValidatorAddsNothing(v: int)
    requires AgeField(v).Accepted?
    ensures AgeMustBePositive(v) == Accepted(v)
  {
  }

  /** 0 and 101 are refused, 1 and 100 pass. */
  lemma AgeBoundaries()
    ensures AgeField(0) == Rejected && AgeField(101) == Rejected
    ensures AgeField(1) == Accepted(1) && AgeField(100) == Accepted(100)
  {
  }
}
