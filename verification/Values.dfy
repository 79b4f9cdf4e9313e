/** A Perl scalar, as far as a container can tell: the default value is undef. */
module Values {
  import opened Wrappers

  datatype Value = Undef | Datum(id: nat)

  function OrUndef(slot: Option<Value>): Value {
    match slot
    case Some(v) => v
    case None => Undef
  }
}
