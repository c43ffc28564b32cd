/** The shape vocabulary: the shapes this model names, and every other one by its name. */
module Shapes {

  datatype Shape =
    | Fermata
    | FermataBelow
    | DotSet
    | AugmentationDot
    | Staccato
    | OtherShape(name: string)

}
