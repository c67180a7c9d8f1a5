/** Parameter schemas, as an endpoint definition carries them. */
module ParameterSchema {
  import opened Text

  datatype ParameterType = StringType | IntegerType | FloatType | BooleanType | ObjectType | ArrayType

  datatype Location = InPath | InQuery | InHeader | InBody

  /** The float and array bounds of the program are never filled from JSON and are left out. */
  datatype Constraints = Constraints(
    minValue: Option<int>, maxValue: Option<int>,
    minLength: Option<int>, maxLength: Option<int>,
    pattern: Option<string>, allowedValues: seq<string>)

  const NoConstraints := Constraints(None, None, None, None, None, [])

  datatype Schema = Schema(
    name: string, kind: ParameterType, location: Location, required: bool,
    description: string, defaultValue: string, constraints: Constraints)
}
