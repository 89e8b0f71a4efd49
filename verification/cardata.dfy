/**
  The static car records the screen lists. The data list itself lives in a
  package that is not part of this model; only the record shape is needed.
 */
module CarData {

  /** An opaque handle to a drawable resource (an `@DrawableRes Int`). */
  type ImageRef = int

  /** One car of the showroom. `price` is a pre-formatted display string. */
  datatype Car = Car(
    name: string,
    price: string,
    features: seq<string>,
    icon: ImageRef,
    detailImages: seq<ImageRef>)

  /** The number of detail images, the `n` of the carousel. */
  function ImageCount(car: Car): nat {
    |car.detailImages|
  }

  /** The property every record is assumed to have: at least one detail image. */
  predicate HasDetailImages(car: Car) {
    ImageCount(car) >= 1
  }

  predicate WellFormedCatalog(cars: seq<Car>) {
    forall j :: 0 <= j < |cars| ==> HasDetailImages(cars[j])
  }
}
