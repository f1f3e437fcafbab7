/** A member of a string enum: an immutable name/value pair belonging to one
    enum type. */
module EnumMember {

  /** Identifies the concrete enum type a member belongs to (the generic
      argument `TEnum`). */
  type TypeTag = string

  datatype Member = Member(typeTag: TypeTag, name: string, value: string)
}
