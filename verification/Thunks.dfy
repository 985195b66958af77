/** The two-level import map: modules keyed by their first thunk, thunks keyed by their RVA. */
module Thunks {
  import opened Bytes
  import OM = OrderedMap

  datatype ImportThunk = ImportThunk(
    moduleName: CString, name: CString, va: nat, rva: nat, ordinal: nat,
    apiAddress: nat, hint: nat, valid: bool, suspect: bool)

  datatype ImportModuleThunk = ImportModuleThunk(
    moduleName: CString, firstThunk: nat, thunkMap: OM.Map<ImportThunk>)

  type ModuleMap = OM.Map<ImportModuleThunk>
}
