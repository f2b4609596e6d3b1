/** The record the post-processor hands to drawing (include/processing.hpp).
    Only the record is part of this model: the post-processor's filtering
    and suppression are declared in that header but defined elsewhere. */
module Processing {

  /** A detection: corner coordinates, confidence and class, all `float` in
      the source (the class id included). */
  datatype Box = Box(x1: real, y1: real, x2: real, y2: real, confidence: real, classId: real)
}
