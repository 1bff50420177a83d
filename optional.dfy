/** The source's `null` results (an untranslatable phrase, an absent child, an
    uncomputed cache) are modelled with this Option type. */
module Optional {
  datatype Option<+T> = None | Some(value: T)
}
