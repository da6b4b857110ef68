/** The conversions the call machinery of impl/ExportImpl.h and
    impl/ImportImpl.h relies on: `fromDynamic` into a parameter or result
    type, and `DynamicValue::from` of a native value.  The export and import
    paths are stated over any such pair; `Engine` is the conversion engine
    of this model with its user converters. */
module Marshal {

  import opened Wrappers
  import opened ErrorUtils
  import opened DynamicValues
  import opened ConversionTypes
  import opened Conversions

  datatype Codec = Codec(dec: (TypeDesc, DynamicValue) -> Result<Native, Error>,
                         enc: (TypeDesc, Native) -> Result<DynamicValue, Error>)

  /** The message of the conversion engine's stand-in for a value of the
      wrong type; C++ typing rules such a value out. */
  const IllTyped := "value does not have the declared type"

  /** The conversion engine with user converters `h`: decoding is `Decode`,
      and encoding a value of its type is `FromNative`. */
  function Engine(h: Hooks): (c: Codec)
    ensures forall t, dv :: c.dec(t, dv) == Decode(h, t, dv)
    ensures forall t, v :: WellTyped(t, v) ==> c.enc(t, v) == FromNative(h, t, v)
  {
    Codec((t, dv) => Decode(h, t, dv),
          (t, v) => if WellTyped(t, v) then FromNative(h, t, v) else Failure(Abort(IllTyped)))
  }
}
