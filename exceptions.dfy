/** The exceptions `Builder::create` throws, as error values. */
module Exceptions {

  datatype BuildError =
    | DataDoesNotExists   // the text is empty
    | VersionTooLarge     // the recorded version is above 40
    | Overflow            // the data bits exceed the capacity
    // the tables lack the shape of the library's own files (Builders.TablesFit):
    // a version of 1 to 40, a placement entry for every data module, coordinates
    // and the 15 format cells inside the grid, blocks that each carry data with
    // data lengths adding up to the data codewords, and 256 table rows
    | MalformedTable
}
