/** Record shapes of the two tables (models of Models/Dict.cs and Models/DictItem.cs). */
module Models {

  datatype Option<+T> = None | Some(value: T)

  /** A row of DICT: a named dictionary, optionally nested under a parent dictionary. */
  datatype Dict = Dict(
    dictId: int,
    parentId: Option<int>,
    name: string,
    code: string,
    description: Option<string>)

  /** A row of DICT_ITEM: one coded entry owned by the dictionary `dictId`. */
  datatype DictItem = DictItem(
    itemId: int,
    dictId: int,
    code: string,
    name: string)
}
