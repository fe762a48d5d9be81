/** A predicate that is defined under `Unfold` is passed on as it is, and its definition comes into play only
    where `Unfold` is mentioned with its topic. */
module Hiding {
  datatype Topic =
    | Trees | Histories | Supers | Spaces | ArrayMaps | LongMaps | Elems | Tables | States | Encodings | Scans | Texts
    | Passes | Alphabet

  ghost predicate Unfold(topic: Topic, b: bool) { true }
}
