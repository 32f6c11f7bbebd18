/**
 * The list building of `createPattern`: the text captures become the
 * descriptions as they are, and every image capture becomes an absolute URL
 * by putting the https prefix in front of it. The two lists are built from
 * separate captures and their lengths are never compared.
 */
module Extraction {
  import opened Quiz

  /** The image URLs for the image captures, in capture order. */
  function ImageUrls(https: string, captures: seq<string>): (urls: seq<string>)
    ensures |urls| == |captures|
    ensures forall i :: 0 <= i < |captures| ==> urls[i] == https + captures[i]
  {
    if captures == [] then [] else [https + captures[0]] + ImageUrls(https, captures[1..])
  }

  /**
   * A round looks its image up with the description index. Every question
   * the round can pick has an image exactly when there are at least as many
   * image captures as text captures.
   */
  lemma ImageFoundIff(textCaptures: seq<string>, imageCaptures: seq<string>, https: string,
                      right: nat, imageLoaded: bool, draws: seq<nat>)
    requires |textCaptures| > 0 && right < ButtonCount
    ensures (forall q :: 0 <= q < |textCaptures| ==>
               Outcome(textCaptures, ImageUrls(https, imageCaptures), q, right, imageLoaded, draws) != ImageIndexOutOfRange)
        <==> |textCaptures| <= |imageCaptures|
  {
    if |imageCaptures| < |textCaptures| {
      var q := |imageCaptures|;
      assert Outcome(textCaptures, ImageUrls(https, imageCaptures), q, right, imageLoaded, draws) == ImageIndexOutOfRange;
    }
  }
}
